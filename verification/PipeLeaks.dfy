// A pipe end that never got a description: nothing can close it, so its pipe stays for good (src/kernel/kernel.c).
module PipeLeaks {
  import opened Descriptors
  import opened DescriptorRuns

  /** The end of pipe p never got a description. */
  predicate Stranded(k: Kernel, p: nat, reading: bool) {
    p in k.pipes && (if reading then k.pipes[p].readDesc else k.pipes[p].writeDesc) == 0
  }

  lemma StrandedCounts(k: Kernel, p: nat, reading: bool)
    requires Inv(k) && Stranded(k, p, reading)
    ensures (if reading then k.pipes[p].readers else k.pipes[p].writers) == 1
  {
    Parts(k, p);
    Parts(k, 0);
  }

  lemma UnrefStays(k: Kernel, d: nat, p: nat, reading: bool)
    requires Inv(k) && Stranded(k, p, reading)
    ensures Stranded(Unref(k, d), p, reading)
  {
    hide Inv, Closes;
    Parts(k, d);
    Parts(k, p);
    Parts(k, 0);
  }

  lemma CloseStays(k: Kernel, i: nat, p: nat, reading: bool)
    requires Inv(k) && Stranded(k, p, reading)
    ensures Stranded(Close(k, i), p, reading) && Inv(Close(k, i))
  {
    hide Inv, Unref;
    CloseKeeps(k, i);
    if i < |k.slots| && k.slots[i] != 0 {
      RemoveKeeps(k, i);
      UnrefStays(Remove(k, i), k.slots[i], p, reading);
    }
  }

  lemma CopiedStays(k: Kernel, from: nat, to: nat, p: nat, reading: bool)
    requires from < |k.slots| && to < |k.slots| && Stranded(k, p, reading)
    ensures Stranded(Copied(k, from, to), p, reading)
  {}

  lemma PlaceStays(k: Kernel, t: nat, d: nat, p: nat, reading: bool)
    requires Inv(k) && InRange(k, t) && Stranded(k, p, reading)
    ensures Stranded(Place(k, t, d), p, reading)
  {
    hide Inv, FreeSlot, Unref;
    UnrefStays(k, d, p, reading);
  }

  lemma OpenEndStays(k: Kernel, t: nat, q: nat, side: bool, memory: bool, p: nat, reading: bool)
    requires Inv(k) && InRange(k, t) && Stranded(k, p, reading) && p != q
    requires q in k.pipes ==> (if side then k.pipes[q].readDesc else k.pipes[q].writeDesc) == 0
    ensures Stranded(OpenEnd(k, t, q, side, memory), p, reading)
  {
    hide Inv, Place;
    if memory && q in k.pipes {
      AllocEndKeeps(k, q, side);
      PlaceStays(AllocEnd(k, q, side), t, k.next, p, reading);
    }
  }

  lemma MakePipeStays(k: Kernel, t: nat, r: bool, w: bool, p: nat, reading: bool)
    requires Inv(k) && InRange(k, t) && Stranded(k, p, reading)
    ensures Stranded(MakePipe(k, t, r, w), p, reading)
  {
    hide Inv, OpenEnd, Close, PlacedAt;
    var q, n := k.nextPipe, NewPipe(k);
    NewPipeKeeps(k);
    OpenEndKeeps(n, t, q, true, r);
    OtherEnd(n, t, q, r);
    OpenEndStays(n, t, q, true, r, p, reading);
    var a := OpenEnd(n, t, q, true, r);
    OpenEndKeeps(a, t, q, false, w);
    OpenEndStays(a, t, q, false, w, p, reading);
    var b := OpenEnd(a, t, q, false, w);
    CloseStays(b, PlacedAt(k, t), p, reading);
    CloseStays(b, PlacedAt(a, t), p, reading);
    CloseStays(Close(b, PlacedAt(k, t)), PlacedAt(a, t), p, reading);
  }

  lemma {:induction false} CloseFromStays(k: Kernel, t: nat, i: nat, p: nat, reading: bool)
    requires Inv(k) && Stranded(k, p, reading)
    ensures Stranded(CloseFrom(k, t, i), p, reading)
    decreases TASK_MAX_FDS - i
  {
    hide Inv, Close, Stranded;
    if i < TASK_MAX_FDS {
      CloseStays(k, TASK_MAX_FDS * t + i, p, reading);
      CloseFromStays(Close(k, TASK_MAX_FDS * t + i), t, i + 1, p, reading);
    }
  }

  lemma {:induction false} InheritStays(k: Kernel, parent: nat, child: nat, i: nat, p: nat, reading: bool)
    requires Stranded(k, p, reading)
    ensures Stranded(Inherit(k, parent, child, i), p, reading)
    decreases TASK_MAX_FDS - i
  {
    hide Copied, Stranded;
    var from, to := TASK_MAX_FDS * parent + i, TASK_MAX_FDS * child + i;
    if i < TASK_MAX_FDS && from < |k.slots| && to < |k.slots| {
      CopiedStays(k, from, to, p, reading);
      InheritStays(Copied(k, from, to), parent, child, i + 1, p, reading);
    }
  }

  lemma DupStays(k: Kernel, e: Event, p: nat, reading: bool)
    requires Inv(k) && Possible(k, e) && Stranded(k, p, reading)
    requires e.DupCall? || e.Dup2Call? || e.OpenFile? || e.Hold?
    ensures Stranded(Apply(k, e), p, reading)
  {
    hide Inv, Close, Copied, Place, FreeSlot, Stranded;
    match e {
      case DupCall(t, fd, min) =>
        var b := TASK_MAX_FDS * t;
        if fd < TASK_MAX_FDS && min < TASK_MAX_FDS {
          var i := FreeSlot(k.slots, b + min, b + TASK_MAX_FDS);
          if i < b + TASK_MAX_FDS {
            CopiedStays(k, b + fd, i, p, reading);
          }
        }
      case Dup2Call(t, from, to) =>
        var b := TASK_MAX_FDS * t;
        CloseStays(k, b + to, p, reading);
        if from < TASK_MAX_FDS && to < TASK_MAX_FDS {
          CopiedStays(Close(k, b + to), b + from, b + to, p, reading);
        }
      case OpenFile(t) =>
        AllocKeeps(k);
        SamePipe(k, Alloc(k, Plain), p, reading);
        PlaceStays(Alloc(k, Plain), t, k.next, p, reading);
      case Hold(t, fd) =>
        SamePipe(k, Apply(k, e), p, reading);
    }
  }

  lemma SamePipe(k: Kernel, l: Kernel, p: nat, reading: bool)
    requires Stranded(k, p, reading) && l.pipes == k.pipes
    ensures Stranded(l, p, reading)
  {}

  lemma ApplyStays(k: Kernel, e: Event, p: nat, reading: bool)
    requires Inv(k) && Possible(k, e) && Stranded(k, p, reading)
    ensures Stranded(Apply(k, e), p, reading)
  {
    hide Inv, MakePipe, Close, CloseFrom, Inherit, Unref, Stranded;
    match e {
      case PipeCall(t, r, w) => MakePipeStays(k, t, r, w, p, reading);
      case CloseCall(t, fd) => CloseStays(k, TASK_MAX_FDS * t + fd, p, reading);
      case Exit(t) => CloseFromStays(k, t, 0, p, reading);
      case Fork(a, c) => InheritStays(k, a, c, 0, p, reading);
      case Drop(d) => UnrefStays(k, d, p, reading);
      case _ => DupStays(k, e, p, reading);
    }
  }

  /** Whatever calls follow, exits included, the pipe stays and goes on counting the end that has no description. */
  lemma {:induction false} StrandedForever(k: Kernel, es: seq<Event>, p: nat, reading: bool)
    requires Inv(k) && Runs(k, es) && Stranded(k, p, reading)
    ensures var l := Run(k, es);
            Stranded(l, p, reading) && (if reading then l.pipes[p].readers else l.pipes[p].writers) == 1
    decreases |es|
  {
    hide Inv, Apply, Possible, Stranded;
    if es == [] {
      StrandedCounts(k, p, reading);
    } else {
      ApplyKeeps(k, es[0]);
      ApplyStays(k, es[0], p, reading);
      StrandedForever(Apply(k, es[0]), es[1..], p, reading);
    }
  }

  /** One sys_pipe whose read end finds no memory, with no file open: the pipe is left and nothing refers to it. */
  lemma LeakReached(n: nat)
    requires n > 0
    ensures Runs(Fresh(n), [PipeCall(0, false, true)])
    ensures var k := Run(Fresh(n), [PipeCall(0, false, true)]);
            Stranded(k, 0, true) && k.descs == map[] && k.slots == Fresh(n).slots
  {
    var k := Fresh(n);
    assert [PipeCall(0, false, true)][1..] == [];
    var a := NewPipe(k);
    assert FreeSlot(a.slots, FIRST_FD, TASK_MAX_FDS) == FIRST_FD;
    assert PlacedAt(a, 0) == FIRST_FD;
    var b := OpenEnd(a, 0, 0, false, true);
    OneEnd(n);
  }

  lemma OneEnd(n: nat)
    requires n > 0
    ensures var a := NewPipe(Fresh(n));
            var b := OpenEnd(a, 0, 0, false, true);
            var c := Close(b, FIRST_FD);
            && c.pipes == map[0 := PipeEnds(1, 0, 0, 1)] && c.descs == map[] && c.slots == Fresh(n).slots
  {
    var a := NewPipe(Fresh(n));
    assert FreeSlot(a.slots, FIRST_FD, TASK_MAX_FDS) == FIRST_FD;
    var e := AllocEnd(a, 0, false);
    assert e.descs == map[1 := Desc(WriteEnd(0), 1)] && e.pipes == map[0 := PipeEnds(1, 1, 0, 1)];
    assert e.slots == Fresh(n).slots;
    hide AllocEnd, NewPipe, Fresh, FreeSlot;
    Undone(e, FIRST_FD);
  }

  /** The only description is put into slot i and taken out again. */
  lemma Undone(e: Kernel, i: nat)
    requires e.descs == map[1 := Desc(WriteEnd(0), 1)] && e.pipes == map[0 := PipeEnds(1, 1, 0, 1)]
    requires i < |e.slots| && e.slots[i] == 0
    ensures var c := Close(Install(e, i, 1), i);
            c.pipes == map[0 := PipeEnds(1, 0, 0, 1)] && c.descs == map[] && c.slots == e.slots
  {
    var b := Install(e, i, 1);
    assert b.slots[i] == 1;
    var c := Unref(Remove(b, i), 1);
    assert c.slots == e.slots;
    assert c.descs == map[];
  }
}
