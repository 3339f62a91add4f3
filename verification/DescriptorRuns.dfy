// The system calls on descriptors, and what every run of them keeps (src/kernel/kernel.c, src/kernel/scheduler.c).
module DescriptorRuns {
  import opened Descriptors

  /** The first empty slot from lo up to hi, or hi. */
  function FreeSlot(slots: seq<nat>, lo: nat, hi: nat): (i: nat)
    requires lo <= hi <= |slots|
    ensures lo <= i <= hi && (i < hi ==> slots[i] == 0) && forall x :: lo <= x < i ==> slots[x] != 0
    decreases hi - lo
  {
    if lo == hi then hi else if slots[lo] == 0 then lo else FreeSlot(slots, lo + 1, hi)
  }

  ghost predicate InRange(k: Kernel, t: nat) { TASK_MAX_FDS * t + TASK_MAX_FDS <= |k.slots| }

  /** sys_dup (from slot 0) and fcntl F_DUPFD (from slot min): another slot of the task names the same description. */
  function Dup(k: Kernel, t: nat, fd: nat, min: nat): Kernel
    requires TASK_MAX_FDS * t + TASK_MAX_FDS <= |k.slots|
  {
    var b := TASK_MAX_FDS * t;
    if fd >= TASK_MAX_FDS || min >= TASK_MAX_FDS || k.slots[b + fd] == 0 then k
    else
      var i := FreeSlot(k.slots, b + min, b + TASK_MAX_FDS);
      if i == b + TASK_MAX_FDS then k else Copied(k, b + fd, i)
  }

  /** sys_close of slot i. */
  function Close(k: Kernel, i: nat): (r: Kernel)
    ensures |r.slots| == |k.slots|
  {
    if i >= |k.slots| || k.slots[i] == 0 then k else Unref(Remove(k, i), k.slots[i])
  }

  /** Slot `to` comes to name what slot `from` names. */
  function Copied(k: Kernel, from: nat, to: nat): Kernel
    requires from < |k.slots| && to < |k.slots|
  {
    if k.slots[from] == 0 then k else Install(Ref(k, k.slots[from]), to, k.slots[from])
  }

  /** sys_dup2. */
  function Dup2(k: Kernel, t: nat, old_: nat, new_: nat): Kernel
    requires TASK_MAX_FDS * t + TASK_MAX_FDS <= |k.slots|
  {
    var b := TASK_MAX_FDS * t;
    if old_ >= TASK_MAX_FDS || new_ >= TASK_MAX_FDS || k.slots[b + old_] == 0 || old_ == new_ then k
    else Copied(Close(k, b + new_), b + old_, b + new_)
  }

  /** The tail of task_alloc_fd: a fresh description goes into a slot from 3 on, or is given up. */
  function Place(k: Kernel, t: nat, d: nat): Kernel
    requires TASK_MAX_FDS * t + TASK_MAX_FDS <= |k.slots|
  {
    var b := TASK_MAX_FDS * t;
    var i := FreeSlot(k.slots, b + FIRST_FD, b + TASK_MAX_FDS);
    if i == b + TASK_MAX_FDS then Unref(k, d) else Install(k, i, d)
  }

  /** task_alloc_fd for a node that is no pipe end. */
  function Open(k: Kernel, t: nat): Kernel
    requires TASK_MAX_FDS * t + TASK_MAX_FDS <= |k.slots|
  {
    Place(Alloc(k, Plain), t, k.next)
  }

  /** task_alloc_fd for one end of pipe p; `memory` says whether the description can be allocated. */
  function OpenEnd(k: Kernel, t: nat, p: nat, reading: bool, memory: bool): Kernel
    requires TASK_MAX_FDS * t + TASK_MAX_FDS <= |k.slots|
  {
    if memory && p in k.pipes then Place(AllocEnd(k, p, reading), t, k.next) else k
  }

  /** The slot task_alloc_fd used, if it found one. */
  function PlacedAt(k: Kernel, t: nat): (i: nat)
    requires TASK_MAX_FDS * t + TASK_MAX_FDS <= |k.slots|
    ensures TASK_MAX_FDS * t + FIRST_FD <= i <= TASK_MAX_FDS * t + TASK_MAX_FDS
  {
    FreeSlot(k.slots, TASK_MAX_FDS * t + FIRST_FD, TASK_MAX_FDS * t + TASK_MAX_FDS)
  }

  /** sys_pipe once its blocks are allocated: on a failure the end that got a slot is closed again. */
  function MakePipe(k: Kernel, t: nat, memoryR: bool, memoryW: bool): Kernel
    requires TASK_MAX_FDS * t + TASK_MAX_FDS <= |k.slots|
  {
    var full := TASK_MAX_FDS * t + TASK_MAX_FDS;
    var p := k.nextPipe;
    var a := OpenEnd(NewPipe(k), t, p, true, memoryR);
    var r := if memoryR then PlacedAt(k, t) else full;
    var b := OpenEnd(a, t, p, false, memoryW);
    var w := if memoryW && |a.slots| == |k.slots| then PlacedAt(a, t) else full;
    if r < full && w < full then b
    else
      var c := if r < full then Close(b, r) else b;
      if w < full then Close(c, w) else c
  }

  /** task_close_all_fds from slot i of the task on. */
  function CloseFrom(k: Kernel, t: nat, i: nat): Kernel
    decreases TASK_MAX_FDS - i
  {
    if i >= TASK_MAX_FDS then k else CloseFrom(Close(k, TASK_MAX_FDS * t + i), t, i + 1)
  }

  /** The descriptor part of fork, and inherit_fds, from slot i on: the child's slots name the parent's descriptions. */
  function Inherit(k: Kernel, parent: nat, child: nat, i: nat): Kernel
    decreases TASK_MAX_FDS - i
  {
    var from, to := TASK_MAX_FDS * parent + i, TASK_MAX_FDS * child + i;
    if i >= TASK_MAX_FDS || from >= |k.slots| || to >= |k.slots| then k
    else Inherit(Copied(k, from, to), parent, child, i + 1)
  }

  // ---- each call keeps the invariant ----

  lemma InSlot(k: Kernel, i: nat)
    requires Inv(k) && i < |k.slots| && k.slots[i] != 0
    ensures k.slots[i] in k.descs
  {
    Parts(k, k.slots[i]);
    assert multiset(k.slots)[k.slots[i]] > 0;
  }

  lemma RefHeld(k: Kernel, d: nat)
    requires d in k.descs
    ensures Ref(k, d).holds[d] > 0 && Ref(k, d).slots == k.slots && d in Ref(k, d).descs
  {}

  lemma CopyKeeps(k: Kernel, from: nat, to: nat)
    requires Inv(k) && from < |k.slots| && to < |k.slots| && k.slots[from] != 0 && k.slots[to] == 0
    ensures Inv(Install(Ref(k, k.slots[from]), to, k.slots[from]))
  {
    hide Inv, Install, Ref;
    InSlot(k, from);
    RefKeeps(k, k.slots[from]);
    RefHeld(k, k.slots[from]);
    InstallKeeps(Ref(k, k.slots[from]), to, k.slots[from]);
  }

  lemma DupKeeps(k: Kernel, t: nat, fd: nat, min: nat)
    requires Inv(k) && InRange(k, t)
    ensures Inv(Dup(k, t, fd, min))
  {
    hide Inv, Copied;
    var b := TASK_MAX_FDS * t;
    if fd < TASK_MAX_FDS && min < TASK_MAX_FDS && k.slots[b + fd] != 0 {
      var i := FreeSlot(k.slots, b + min, b + TASK_MAX_FDS);
      if i < b + TASK_MAX_FDS {
        CopiedKeeps(k, b + fd, i);
      }
    }
  }

  lemma CloseKeeps(k: Kernel, i: nat)
    requires Inv(k)
    ensures Inv(Close(k, i)) && |Close(k, i).slots| == |k.slots|
    ensures forall x :: 0 <= x < |k.slots| && x != i ==> Close(k, i).slots[x] == k.slots[x]
    ensures i < |k.slots| ==> Close(k, i).slots[i] == 0
  {
    hide Inv;
    if i < |k.slots| && k.slots[i] != 0 {
      RemoveKeeps(k, i);
      UnrefKeeps(Remove(k, i), k.slots[i]);
    }
  }

  lemma Dup2Keeps(k: Kernel, t: nat, old_: nat, new_: nat)
    requires Inv(k) && InRange(k, t)
    ensures Inv(Dup2(k, t, old_, new_))
  {
    hide Inv, Copied, Close;
    var b := TASK_MAX_FDS * t;
    if old_ < TASK_MAX_FDS && new_ < TASK_MAX_FDS && k.slots[b + old_] != 0 && old_ != new_ {
      CloseKeeps(k, b + new_);
      CopiedKeeps(Close(k, b + new_), b + old_, b + new_);
    }
  }

  lemma PlaceKeeps(k: Kernel, t: nat, d: nat)
    requires Inv(k) && InRange(k, t) && d in k.descs && k.holds[d] > 0
    ensures Inv(Place(k, t, d)) && |Place(k, t, d).slots| == |k.slots|
  {
    hide Inv;
    var b := TASK_MAX_FDS * t;
    var i := FreeSlot(k.slots, b + FIRST_FD, b + TASK_MAX_FDS);
    if i == b + TASK_MAX_FDS {
      UnrefKeeps(k, d);
    } else {
      Nonzero(k, d);
      InstallKeeps(k, i, d);
    }
  }

  lemma Nonzero(k: Kernel, d: nat)
    requires Inv(k) && d in k.descs
    ensures d != 0
  {
    Parts(k, d);
  }

  lemma OpenKeeps(k: Kernel, t: nat)
    requires Inv(k) && InRange(k, t)
    ensures Inv(Open(k, t))
  {
    hide Inv, Place;
    AllocKeeps(k);
    PlaceKeeps(Alloc(k, Plain), t, k.next);
  }

  lemma OpenEndKeeps(k: Kernel, t: nat, p: nat, reading: bool, memory: bool)
    requires Inv(k) && InRange(k, t)
    requires p in k.pipes ==> (if reading then k.pipes[p].readDesc else k.pipes[p].writeDesc) == 0
    ensures Inv(OpenEnd(k, t, p, reading, memory)) && |OpenEnd(k, t, p, reading, memory).slots| == |k.slots|
  {
    hide Inv, Place;
    if memory && p in k.pipes {
      AllocEndKeeps(k, p, reading);
      PlaceKeeps(AllocEnd(k, p, reading), t, k.next);
    }
  }

  /** Opening the read end leaves the write end as it was. */
  lemma OtherEnd(k: Kernel, t: nat, p: nat, memory: bool)
    requires InRange(k, t) && p in k.pipes
    ensures var l := OpenEnd(k, t, p, true, memory); p in l.pipes ==> l.pipes[p].writeDesc == k.pipes[p].writeDesc
  {
    hide FreeSlot;
  }

  lemma MakePipeKeeps(k: Kernel, t: nat, memoryR: bool, memoryW: bool)
    requires Inv(k) && InRange(k, t)
    ensures Inv(MakePipe(k, t, memoryR, memoryW))
  {
    hide Inv, OpenEnd, Close, PlacedAt;
    var p := k.nextPipe;
    NewPipeKeeps(k);
    OpenEndKeeps(NewPipe(k), t, p, true, memoryR);
    OtherEnd(NewPipe(k), t, p, memoryR);
    var a := OpenEnd(NewPipe(k), t, p, true, memoryR);
    OpenEndKeeps(a, t, p, false, memoryW);
    var b := OpenEnd(a, t, p, false, memoryW);
    CloseKeeps(b, PlacedAt(k, t));
    CloseKeeps(b, PlacedAt(a, t));
    CloseKeeps(Close(b, PlacedAt(k, t)), PlacedAt(a, t));
  }

  lemma {:induction false} CloseFromKeeps(k: Kernel, t: nat, i: nat)
    requires Inv(k) && InRange(k, t)
    ensures Inv(CloseFrom(k, t, i)) && |CloseFrom(k, t, i).slots| == |k.slots|
    ensures forall x :: 0 <= x < |k.slots| && !(TASK_MAX_FDS * t + i <= x < TASK_MAX_FDS * t + TASK_MAX_FDS) ==>
            CloseFrom(k, t, i).slots[x] == k.slots[x]
    ensures forall x :: TASK_MAX_FDS * t + i <= x < TASK_MAX_FDS * t + TASK_MAX_FDS ==> CloseFrom(k, t, i).slots[x] == 0
    decreases TASK_MAX_FDS - i
  {
    hide Inv, Close;
    if i < TASK_MAX_FDS {
      CloseKeeps(k, TASK_MAX_FDS * t + i);
      CloseFromKeeps(Close(k, TASK_MAX_FDS * t + i), t, i + 1);
    }
  }

  lemma {:induction false} InheritKeeps(k: Kernel, parent: nat, child: nat, i: nat)
    requires Inv(k) && InRange(k, parent) && InRange(k, child) && parent != child
    requires forall x :: TASK_MAX_FDS * child + i <= x < TASK_MAX_FDS * child + TASK_MAX_FDS ==> k.slots[x] == 0
    ensures Inv(Inherit(k, parent, child, i))
    decreases TASK_MAX_FDS - i
  {
    hide Inv, Copied;
    var from, to := TASK_MAX_FDS * parent + i, TASK_MAX_FDS * child + i;
    if i < TASK_MAX_FDS {
      CopiedKeeps(k, from, to);
      InheritKeeps(Copied(k, from, to), parent, child, i + 1);
    }
  }

  ghost predicate EmptyFrom(k: Kernel, t: nat, i: nat)
    requires InRange(k, t)
  {
    forall x :: TASK_MAX_FDS * t + i <= x < TASK_MAX_FDS * t + TASK_MAX_FDS ==> k.slots[x] == 0
  }

  /** One turn of the loop that copies a parent's slots to its child. */
  lemma InheritOne(k: Kernel, parent: nat, child: nat, i: nat)
    requires Inv(k) && InRange(k, parent) && InRange(k, child) && EmptyFrom(k, child, i) && i < TASK_MAX_FDS
    ensures var from, to := TASK_MAX_FDS * parent + i, TASK_MAX_FDS * child + i;
            var l := Copied(k, from, to);
            && Inv(l) && |l.slots| == |k.slots| && EmptyFrom(l, child, i + 1)
            && Inherit(k, parent, child, i) == Inherit(l, parent, child, i + 1)
  {
    hide Inv, Copied;
    CopiedKeeps(k, TASK_MAX_FDS * parent + i, TASK_MAX_FDS * child + i);
  }

  lemma CopiedKeeps(k: Kernel, from: nat, to: nat)
    requires Inv(k) && from < |k.slots| && to < |k.slots| && k.slots[to] == 0
    ensures Inv(Copied(k, from, to)) && Copied(k, from, to).slots == k.slots[to := k.slots[from]]
  {
    hide Inv;
    if k.slots[from] != 0 {
      CopyKeeps(k, from, to);
    }
  }

  /** After a fork the child's slots name what the parent's do, and no other task's slots changed. */
  lemma {:induction false} InheritCopies(k: Kernel, parent: nat, child: nat, i: nat, x: nat)
    requires InRange(k, parent) && InRange(k, child) && parent != child && x < |k.slots|
    requires forall y :: TASK_MAX_FDS * child + i <= y < TASK_MAX_FDS * child + TASK_MAX_FDS ==> k.slots[y] == 0
    ensures |Inherit(k, parent, child, i).slots| == |k.slots|
    ensures Inherit(k, parent, child, i).slots[x] ==
            if TASK_MAX_FDS * child + i <= x < TASK_MAX_FDS * child + TASK_MAX_FDS then
               k.slots[x - TASK_MAX_FDS * child + TASK_MAX_FDS * parent]
            else k.slots[x]
    decreases TASK_MAX_FDS - i
  {
    hide Copied;
    var from, to := TASK_MAX_FDS * parent + i, TASK_MAX_FDS * child + i;
    if i < TASK_MAX_FDS {
      CopySlots(k, from, to);
      InheritCopies(Copied(k, from, to), parent, child, i + 1, x);
    }
  }

  lemma CopySlots(k: Kernel, from: nat, to: nat)
    requires from < |k.slots| && to < |k.slots| && k.slots[to] == 0
    ensures Copied(k, from, to).slots == k.slots[to := k.slots[from]]
  {}

  // ---- pipes whose ends both got a description ----

  /** Every pipe's ends have descriptions: no allocation of one has failed. */
  ghost predicate Complete(k: Kernel) {
    forall p :: p in k.pipes ==> k.pipes[p].readDesc != 0 && k.pipes[p].writeDesc != 0
  }

  /** Pipes only go away; the descriptions of those that stay are the same. */
  ghost predicate Shrinks(k: Kernel, l: Kernel) {
    && |l.slots| == |k.slots|
    && forall p :: p in l.pipes ==>
       p in k.pipes && l.pipes[p].readDesc == k.pipes[p].readDesc && l.pipes[p].writeDesc == k.pipes[p].writeDesc
  }

  lemma UnrefShrinks(k: Kernel, d: nat)
    ensures Shrinks(k, Unref(k, d))
  {}

  lemma CloseShrinks(k: Kernel, i: nat)
    ensures Shrinks(k, Close(k, i))
  {
    hide Unref;
    if i < |k.slots| && k.slots[i] != 0 {
      UnrefShrinks(Remove(k, i), k.slots[i]);
    }
  }

  lemma PlaceShrinks(k: Kernel, t: nat, d: nat)
    requires InRange(k, t)
    ensures Shrinks(k, Place(k, t, d))
  {
    hide FreeSlot;
  }

  lemma {:induction false} CloseFromShrinks(k: Kernel, t: nat, i: nat)
    ensures Shrinks(k, CloseFrom(k, t, i))
    decreases TASK_MAX_FDS - i
  {
    hide Close;
    if i < TASK_MAX_FDS {
      CloseShrinks(k, TASK_MAX_FDS * t + i);
      CloseFromShrinks(Close(k, TASK_MAX_FDS * t + i), t, i + 1);
    }
  }

  lemma ShrinksTwice(k: Kernel, l: Kernel, m: Kernel)
    requires Shrinks(k, l) && Shrinks(l, m)
    ensures Shrinks(k, m)
  {}

  lemma CopyShrinks(k: Kernel, from: nat, to: nat)
    requires from < |k.slots| && to < |k.slots|
    ensures Shrinks(k, Copied(k, from, to))
  {}

  lemma {:induction false} InheritShrinks(k: Kernel, parent: nat, child: nat, i: nat)
    ensures Shrinks(k, Inherit(k, parent, child, i))
    decreases TASK_MAX_FDS - i
  {
    hide Shrinks, Copied;
    var from, to := TASK_MAX_FDS * parent + i, TASK_MAX_FDS * child + i;
    Same(k);
    if i < TASK_MAX_FDS && from < |k.slots| && to < |k.slots| {
      CopyShrinks(k, from, to);
      var l := Copied(k, from, to);
      InheritShrinks(l, parent, child, i + 1);
      ShrinksTwice(k, l, Inherit(l, parent, child, i + 1));
    }
  }

  lemma Same(k: Kernel)
    ensures Shrinks(k, k)
  {}

  lemma ShrinkComplete(k: Kernel, l: Kernel)
    requires Shrinks(k, l) && Complete(k)
    ensures Complete(l)
  {}

  lemma RefShrinks(k: Kernel, d: nat)
    ensures Shrinks(k, Ref(k, d))
  {}

  lemma DupShrinks(k: Kernel, t: nat, fd: nat, min: nat)
    requires InRange(k, t)
    ensures Shrinks(k, Dup(k, t, fd, min))
  {
    hide FreeSlot;
  }

  lemma Dup2Shrinks(k: Kernel, t: nat, from: nat, to: nat)
    requires InRange(k, t)
    ensures Shrinks(k, Dup2(k, t, from, to))
  {
    hide Close, Shrinks, Copied;
    var b := TASK_MAX_FDS * t;
    Same(k);
    CloseShrinks(k, b + to);
    if from < TASK_MAX_FDS && to < TASK_MAX_FDS {
      CopyShrinks(Close(k, b + to), b + from, b + to);
      ShrinksTwice(k, Close(k, b + to), Copied(Close(k, b + to), b + from, b + to));
    }
  }

  lemma OpenShrinks(k: Kernel, t: nat)
    requires InRange(k, t)
    ensures Shrinks(k, Open(k, t))
  {
    hide Place;
    PlaceShrinks(Alloc(k, Plain), t, k.next);
  }

  /** Complete, save that the write end of pipe q has no description yet. */
  ghost predicate CompleteBut(k: Kernel, q: nat) {
    forall p :: p in k.pipes ==> k.pipes[p].readDesc != 0 && (p != q ==> k.pipes[p].writeDesc != 0)
  }

  lemma ReadEndKnown(k: Kernel, t: nat)
    requires InRange(k, t) && Complete(k) && k.next > 0
    ensures var a := OpenEnd(NewPipe(k), t, k.nextPipe, true, true);
            CompleteBut(a, k.nextPipe) && |a.slots| == |k.slots| && a.next > 0
  {
    hide FreeSlot, CloseEnd, Shrinks;
    var n := NewPipe(k);
    PlaceShrinks(AllocEnd(n, k.nextPipe, true), t, n.next);
    ShrinkBut(AllocEnd(n, k.nextPipe, true), Place(AllocEnd(n, k.nextPipe, true), t, n.next), k.nextPipe);
  }

  lemma ShrinkBut(k: Kernel, l: Kernel, q: nat)
    requires Shrinks(k, l) && CompleteBut(k, q)
    ensures CompleteBut(l, q) && |l.slots| == |k.slots|
  {}

  lemma WriteEndKnown(k: Kernel, t: nat, p: nat)
    requires InRange(k, t) && CompleteBut(k, p) && k.next > 0
    ensures Complete(OpenEnd(k, t, p, false, true)) && |OpenEnd(k, t, p, false, true).slots| == |k.slots|
  {
    hide Place, Shrinks;
    if p in k.pipes {
      PlaceShrinks(AllocEnd(k, p, false), t, k.next);
      ShrinkComplete(AllocEnd(k, p, false), Place(AllocEnd(k, p, false), t, k.next));
      ShrinkBut(AllocEnd(k, p, false), Place(AllocEnd(k, p, false), t, k.next), p);
    }
  }

  lemma MakePipeComplete(k: Kernel, t: nat)
    requires Inv(k) && InRange(k, t) && Complete(k)
    ensures Complete(MakePipe(k, t, true, true))
  {
    hide Inv, OpenEnd, Close, PlacedAt, Shrinks, Complete, CompleteBut;
    Positive(k);
    ReadEndKnown(k, t);
    var a := OpenEnd(NewPipe(k), t, k.nextPipe, true, true);
    WriteEndKnown(a, t, k.nextPipe);
    var b := OpenEnd(a, t, k.nextPipe, false, true);
    var c := Close(b, PlacedAt(k, t));
    CloseShrinks(b, PlacedAt(k, t));
    ShrinkComplete(b, c);
    CloseShrinks(b, PlacedAt(a, t));
    ShrinkComplete(b, Close(b, PlacedAt(a, t)));
    CloseShrinks(c, PlacedAt(a, t));
    ShrinkComplete(c, Close(c, PlacedAt(a, t)));
  }

  lemma Positive(k: Kernel)
    requires Inv(k)
    ensures k.next > 0
  {}

  // ---- whole runs ----

  datatype Event =
    | OpenFile(t: nat)
    | PipeCall(t: nat, memoryR: bool, memoryW: bool)
    | DupCall(t: nat, fd: nat, min: nat)
    | Dup2Call(t: nat, from: nat, to: nat)
    | CloseCall(t: nat, fd: nat)
    | Exit(t: nat)
    | Fork(parent: nat, child: nat)
    | Hold(t: nat, fd: nat)
    | Drop(d: nat)

  ghost predicate Empty(k: Kernel, t: nat)
    requires InRange(k, t)
  {
    forall x :: TASK_MAX_FDS * t <= x < TASK_MAX_FDS * t + TASK_MAX_FDS ==> k.slots[x] == 0
  }

  /** The tasks named exist; a child starts with an unused task entry; only a held reference is dropped. */
  ghost predicate Possible(k: Kernel, e: Event) {
    match e
    case Fork(p, c) => InRange(k, p) && InRange(k, c) && p != c && Empty(k, c)
    case Drop(d) => d in k.descs && k.holds[d] > 0
    case CloseCall(t, fd) => InRange(k, t) && fd < TASK_MAX_FDS
    case Hold(t, fd) => InRange(k, t) && fd < TASK_MAX_FDS
    case _ => InRange(k, e.t)
  }

  ghost function Apply(k: Kernel, e: Event): Kernel
    requires Possible(k, e)
  {
    match e
    case OpenFile(t) => Open(k, t)
    case PipeCall(t, r, w) => MakePipe(k, t, r, w)
    case DupCall(t, fd, min) => Dup(k, t, fd, min)
    case Dup2Call(t, from, to) => Dup2(k, t, from, to)
    case CloseCall(t, fd) => Close(k, TASK_MAX_FDS * t + fd)
    case Exit(t) => CloseFrom(k, t, 0)
    case Fork(p, c) => Inherit(k, p, c, 0)
    case Hold(t, fd) => Ref(k, k.slots[TASK_MAX_FDS * t + fd])
    case Drop(d) => Unref(k, d)
  }

  lemma ApplyKeeps(k: Kernel, e: Event)
    requires Inv(k) && Possible(k, e)
    ensures Inv(Apply(k, e))
  {
    hide Inv, Open, MakePipe, Dup, Dup2, Close, CloseFrom, Inherit, Ref, Unref;
    match e {
      case OpenFile(t) => OpenKeeps(k, t);
      case PipeCall(t, r, w) => MakePipeKeeps(k, t, r, w);
      case DupCall(t, fd, min) => DupKeeps(k, t, fd, min);
      case Dup2Call(t, from, to) => Dup2Keeps(k, t, from, to);
      case CloseCall(t, fd) => CloseKeeps(k, TASK_MAX_FDS * t + fd);
      case Exit(t) => CloseFromKeeps(k, t, 0);
      case Fork(p, c) => InheritKeeps(k, p, c, 0);
      case Hold(t, fd) => RefKeeps(k, k.slots[TASK_MAX_FDS * t + fd]);
      case Drop(d) => UnrefKeeps(k, d);
    }
  }

  ghost predicate MemoryOk(e: Event) { e.PipeCall? ==> e.memoryR && e.memoryW }

  lemma ApplyComplete(k: Kernel, e: Event)
    requires Inv(k) && Possible(k, e) && Complete(k) && MemoryOk(e)
    ensures Complete(Apply(k, e))
  {
    hide Inv, Open, MakePipe, Dup, Dup2, Close, CloseFrom, Inherit, Ref, Unref, Shrinks, Complete;
    match e {
      case OpenFile(t) => OpenShrinks(k, t);
      case PipeCall(t, r, w) => MakePipeComplete(k, t);
      case DupCall(t, fd, min) => DupShrinks(k, t, fd, min);
      case Dup2Call(t, from, to) => Dup2Shrinks(k, t, from, to);
      case CloseCall(t, fd) => CloseShrinks(k, TASK_MAX_FDS * t + fd);
      case Exit(t) => CloseFromShrinks(k, t, 0);
      case Fork(p, c) => InheritShrinks(k, p, c, 0);
      case Hold(t, fd) => RefShrinks(k, k.slots[TASK_MAX_FDS * t + fd]);
      case Drop(d) => UnrefShrinks(k, d);
    }
    if !e.PipeCall? {
      ShrinkComplete(k, Apply(k, e));
    }
  }

  /** Every step of the run was possible when it was taken. */
  ghost predicate Runs(k: Kernel, es: seq<Event>)
    decreases |es|
  {
    es == [] || (Possible(k, es[0]) && Runs(Apply(k, es[0]), es[1..]))
  }

  ghost function Run(k: Kernel, es: seq<Event>): Kernel
    requires Runs(k, es)
    decreases |es|
  {
    if es == [] then k else Run(Apply(k, es[0]), es[1..])
  }

  lemma {:induction false} RunKeeps(k: Kernel, es: seq<Event>)
    requires Inv(k) && Runs(k, es)
    ensures Inv(Run(k, es))
    decreases |es|
  {
    hide Inv, Apply, Possible;
    if es != [] {
      ApplyKeeps(k, es[0]);
      RunKeeps(Apply(k, es[0]), es[1..]);
    }
  }

  lemma {:induction false} RunComplete(k: Kernel, es: seq<Event>)
    requires Inv(k) && Runs(k, es) && Complete(k) && forall e :: e in es ==> MemoryOk(e)
    ensures Complete(Run(k, es))
    decreases |es|
  {
    hide Inv, Apply, Possible, Complete, MemoryOk;
    if es != [] {
      ApplyKeeps(k, es[0]);
      ApplyComplete(k, es[0]);
      RunComplete(Apply(k, es[0]), es[1..]);
    }
  }

  function Fresh(n: nat): Kernel { Kernel(seq(TASK_MAX_FDS * n, _ => 0), multiset{}, map[], map[], map[], 1, 0) }

  lemma FreshInv(n: nat)
    ensures Inv(Fresh(n)) && Complete(Fresh(n))
  {
    var k := Fresh(n);
    forall d: nat
      ensures DescOk(k, d)
    {
      assert d != 0 ==> d !in k.slots;
    }
  }

  /**
   * Through every run a description's count is the number of slots and holds naming it, its close runs exactly once,
   * when the last of them goes, and never before.
   */
  lemma CloseOnce(n: nat, es: seq<Event>, d: nat)
    requires Runs(Fresh(n), es)
    ensures var k := Run(Fresh(n), es);
            && (d in k.descs ==> k.descs[d].refs == RefsTo(k, d) > 0 && Closes(k, d) == 0)
            && (0 < d < k.next && d !in k.descs ==> RefsTo(k, d) == 0 && Closes(k, d) == 1)
  {
    hide Run, Runs;
    FreshInv(n);
    RunKeeps(Fresh(n), es);
    Parts(Run(Fresh(n), es), d);
  }

  /**
   * A pipe counts a reader exactly while a reference to its read end remains, or if that end never got a
   * description.
   */
  lemma EndsExactly(n: nat, es: seq<Event>, p: nat)
    requires Runs(Fresh(n), es) && p in Run(Fresh(n), es).pipes
    ensures var k := Run(Fresh(n), es);
            && (k.pipes[p].readers > 0 <==> k.pipes[p].readDesc == 0 || RefsTo(k, k.pipes[p].readDesc) > 0)
            && (k.pipes[p].writers > 0 <==> k.pipes[p].writeDesc == 0 || RefsTo(k, k.pipes[p].writeDesc) > 0)
  {
    hide Run, Runs;
    FreshInv(n);
    RunKeeps(Fresh(n), es);
    var k := Run(Fresh(n), es);
    Parts(k, p);
    Parts(k, k.pipes[p].readDesc);
    Parts(k, k.pipes[p].writeDesc);
  }

  /** When no description allocation fails, the counters say exactly whether a reference to each end remains. */
  lemma PipeTheorem(n: nat, es: seq<Event>, p: nat)
    requires Runs(Fresh(n), es) && (forall e :: e in es ==> MemoryOk(e)) && p in Run(Fresh(n), es).pipes
    ensures var k := Run(Fresh(n), es);
            && (k.pipes[p].readers > 0 <==> RefsTo(k, k.pipes[p].readDesc) > 0)
            && (k.pipes[p].writers > 0 <==> RefsTo(k, k.pipes[p].writeDesc) > 0)
  {
    hide Run, Runs, RefsTo, MemoryOk, Inv;
    FreshInv(n);
    RunComplete(Fresh(n), es);
    EndsExactly(n, es, p);
  }
}
