// The reference counts of copy-on-write fork, exactly: over every run a frame's count is its mappings and what teardown
// and overwriting have left behind, so nothing else ever loses a frame.
module CowLedger {
  import opened Pmm
  import opened Cow

  /** How many leaf entries of frame f the step drops without giving their reference back. */
  function Dropped(vm: Vm, op: CowOp, f: nat): nat {
    match op
    case OpDestroy(pid) => if pid in vm.spaces then Count(vm.spaces[pid], f) else 0
    case OpMap(pid, v, _, _) => if Mapped(vm.spaces, pid, v) && vm.spaces[pid][v].frame == f then 1 else 0
    case _ => 0
  }

  /** The references to frame f that no mapping accounts for. */
  function Slack(vm: Vm, f: nat): int
    requires f < |vm.frames.refs|
  {
    vm.frames.refs[f] - |Mappers(vm.spaces, f)|
  }

  lemma SetCount(spaces: Spaces, pid: nat, v: nat, t: Pte, f: nat)
    requires pid in spaces
    ensures |Mappers(SetPte(spaces, pid, v, t), f)| ==
            |Mappers(spaces, f)| + (if t.frame == f then 1 else 0)
            - (if Mapped(spaces, pid, v) && spaces[pid][v].frame == f then 1 else 0)
  {
    hide Mappers, SetPte;
    MappersSet(spaces, pid, v, t, f);
    MappersIff(spaces, f, pid, v);
  }

  lemma MapLedger(vm: Vm, pid: nat, v: nat, content: Page, writable: bool, f: nat)
    requires VmInv(vm) && pid in vm.spaces && HasFree(vm) && f < |vm.frames.refs|
    ensures var w := MapFresh(vm, pid, v, content, writable);
            && |w.frames.refs| == |vm.frames.refs|
            && Slack(w, f) == Slack(vm, f) + Dropped(vm, OpMap(pid, v, content, writable), f)
  {
    hide Mappers, FirstFree, Consistent, Sound, SetPte;
    var i := FirstFree(vm.frames.used);
    FreshFrame(vm.frames);
    SetCount(vm.spaces, pid, v, Pte(i, writable, false), f);
  }

  lemma ForkLedger(vm: Vm, parent: nat, child: nat, f: nat)
    requires CanFork(vm, parent, child) && f < |vm.frames.refs|
    ensures var w := Fork(vm, parent, child);
            |w.frames.refs| == |vm.frames.refs| && Slack(w, f) == Slack(vm, f)
  {
    hide Mappers, Count, CountsHaveRoom, Counted;
    ForkMappers(vm.spaces, parent, child, f);
    RoomAt(vm, parent, f);
  }

  lemma ClaimLedger(vm: Vm, pid: nat, v: nat, f: nat)
    requires IsCow(vm, pid, v) && f < |vm.frames.refs|
    ensures Slack(Claim(vm, pid, v), f) == Slack(vm, f)
  {
    hide Mappers, SetPte;
    SetCount(vm.spaces, pid, v, Pte(vm.spaces[pid][v].frame, true, false), f);
  }

  lemma SplitLedger(vm: Vm, pid: nat, v: nat, f: nat)
    requires VmInv(vm) && IsCow(vm, pid, v) && HasFree(vm) && vm.frames.refs[vm.spaces[pid][v].frame] > 1
    requires f < |vm.frames.refs|
    ensures var w := Split(vm, pid, v);
            |w.frames.refs| == |vm.frames.refs| && Slack(w, f) == Slack(vm, f)
  {
    hide Mappers, FirstFree, Consistent, SetPte;
    var i := FirstFree(vm.frames.used);
    assert Sound(vm, pid, v);
    FreshFrame(vm.frames);
    SetCount(vm.spaces, pid, v, Pte(i, true, false), f);
  }

  lemma StoreLedger(vm: Vm, pid: nat, v: nat, content: Page, f: nat)
    requires VmInv(vm) && f < |vm.frames.refs|
    ensures var w := Store(vm, pid, v, content);
            |w.frames.refs| == |vm.frames.refs| && Slack(w, f) == Slack(vm, f)
  {
    hide VmInv, Mappers, Claim, Split, FirstFree;
    if IsCow(vm, pid, v) {
      if vm.frames.refs[vm.spaces[pid][v].frame] <= 1 {
        ClaimLedger(vm, pid, v, f);
        assert Claim(vm, pid, v).frames == vm.frames by { ClaimFrames(vm, pid, v); }
      } else if HasFree(vm) {
        SplitLedger(vm, pid, v, f);
      }
    }
  }

  lemma ClaimFrames(vm: Vm, pid: nat, v: nat)
    requires IsCow(vm, pid, v)
    ensures Claim(vm, pid, v).frames == vm.frames
  {}

  lemma DestroyLedger(vm: Vm, pid: nat, f: nat)
    requires f < |vm.frames.refs|
    ensures Slack(Destroy(vm, pid), f) == Slack(vm, f) + Dropped(vm, OpDestroy(pid), f)
  {
    hide Mappers;
    var gone := if pid in vm.spaces then Pairs(pid, Pages(vm.spaces[pid], f)) else {};
    forall m: (nat, nat)
      ensures m in Mappers(vm.spaces, f) <==> m in Mappers(vm.spaces - {pid}, f) + gone
      ensures !(m in Mappers(vm.spaces - {pid}, f) && m in gone)
    {
      MappersIff(vm.spaces, f, m.0, m.1);
      MappersIff(vm.spaces - {pid}, f, m.0, m.1);
    }
    assert Mappers(vm.spaces, f) == Mappers(vm.spaces - {pid}, f) + gone;
    assert Mappers(vm.spaces - {pid}, f) !! gone;
    if pid in vm.spaces {
      PairCount(pid, Pages(vm.spaces[pid], f));
    }
  }

  lemma SpawnLedger(vm: Vm, pid: nat, f: nat)
    requires pid !in vm.spaces && f < |vm.frames.refs|
    ensures Slack(Spawn(vm, pid), f) == Slack(vm, f)
  {
    assert Mappers(Spawn(vm, pid).spaces, f) == Mappers(vm.spaces, f);
  }

  /** A step changes the unaccounted references of a frame by exactly the entries it drops. */
  lemma StepLedger(vm: Vm, op: CowOp, f: nat)
    requires VmInv(vm) && Enabled(vm, op) && f < |vm.frames.refs|
    ensures var w := CowStep(vm, op);
            |w.frames.refs| == |vm.frames.refs| && Slack(w, f) == Slack(vm, f) + Dropped(vm, op, f)
  {
    hide VmInv, MapFresh, Fork, Store, CountsHaveRoom, FirstFree, Slack, Count;
    match op {
      case OpSpawn(pid) => SpawnLedger(vm, pid, f);
      case OpMap(pid, v, content, writable) => MapLedger(vm, pid, v, content, writable, f);
      case OpFork(parent, child) => ForkLedger(vm, parent, child, f);
      case OpStore(pid, v, content) => StoreLedger(vm, pid, v, content, f);
      case OpDestroy(pid) => DestroyLedger(vm, pid, f);
    }
  }

  /** The leaf entries of frame f that a run drops. */
  ghost function Lost(vm: Vm, e: Eager, ops: seq<CowOp>, f: nat): nat
    decreases |ops|
  {
    if ops == [] then 0 else
    var w, op := CowRun(vm, e, ops[..|ops| - 1]).0, ops[|ops| - 1];
    Lost(vm, e, ops[..|ops| - 1], f) + if Enabled(w, op) then Dropped(w, op, f) else 0
  }

  lemma {:induction false} RunLedger(vm: Vm, e: Eager, ops: seq<CowOp>, f: nat)
    requires VmInv(vm) && Same(vm, e) && f < |vm.frames.refs|
    ensures var w := CowRun(vm, e, ops).0;
            && VmInv(w) && |w.frames.refs| == |vm.frames.refs|
            && Slack(w, f) == Slack(vm, f) + Lost(vm, e, ops, f)
    decreases |ops|
  {
    RunRefines(vm, e, ops);
    if ops != [] {
      hide VmInv, Same, Enabled, CowStep, EagerStep, Slack, Dropped;
      RunLedger(vm, e, ops[..|ops| - 1], f);
      var w, op := CowRun(vm, e, ops[..|ops| - 1]).0, ops[|ops| - 1];
      if Enabled(w, op) {
        StepLedger(w, op, f);
      }
    }
  }

  /**
   * From a machine with no processes, after every run: a frame's count is what it started with, one for each page that
   * maps it and one for each entry of it that a teardown or a mapping over a page has dropped.
   */
  lemma LedgerTheorem(frames: Frames, mem: seq<Page>, ops: seq<CowOp>, f: nat)
    requires Consistent(frames) && |mem| == |frames.refs| && f < |frames.refs|
    ensures var vm := Vm(frames, mem, map[]);
            var w := CowRun(vm, map[], ops).0;
            && f < |w.frames.refs| == |w.frames.used|
            && w.frames.refs[f] == frames.refs[f] + |Mappers(w.spaces, f)| + Lost(vm, map[], ops, f)
            && (!frames.used[f] ==> (w.frames.used[f] <==> Mappers(w.spaces, f) != {} || Lost(vm, map[], ops, f) > 0))
  {
    hide Enabled, CowStep, EagerStep, Sound;
    var vm := Vm(frames, mem, map[]);
    RunLedger(vm, map[], ops, f);
    assert Mappers(map[], f) == {};
  }

  /** No teardown, and no mapping over a page that is there. */
  ghost predicate Tidy(vm: Vm, e: Eager, ops: seq<CowOp>) {
    forall i :: 0 <= i < |ops| ==>
      match ops[i]
      case OpDestroy(_) => false
      case OpMap(pid, v, _, _) => !Mapped(CowRun(vm, e, ops[..i]).0.spaces, pid, v)
      case _ => true
  }

  lemma {:induction false} TidyLosesNothing(vm: Vm, e: Eager, ops: seq<CowOp>, f: nat)
    requires Tidy(vm, e, ops)
    ensures Lost(vm, e, ops, f) == 0
    decreases |ops|
  {
    hide Enabled, CowStep, EagerStep;
    if ops != [] {
      var init := ops[..|ops| - 1];
      assert forall i :: 0 <= i < |init| ==> ops[..i] == init[..i];
      TidyLosesNothing(vm, e, init, f);
    }
  }

  lemma ForkCount(vm: Vm, parent: nat, child: nat, f: nat)
    requires parent in vm.spaces && child !in vm.spaces
    ensures |Mappers(Fork(vm, parent, child).spaces, f)| == |Mappers(vm.spaces, f)| + Count(vm.spaces[parent], f)
  {
    hide Mappers, Count;
    ForkMappers(vm.spaces, parent, child, f);
  }

  /** A frame in use that nobody maps is not mapped by a step. */
  lemma StepUnmapped(vm: Vm, op: CowOp, f: nat)
    requires VmInv(vm) && Enabled(vm, op) && f < |vm.frames.used| && vm.frames.used[f] && Mappers(vm.spaces, f) == {}
    ensures Mappers(CowStep(vm, op).spaces, f) == {}
  {
    hide CountsHaveRoom, Sound, Mappers, FirstFree, SetPte, Fork;
    var i := FirstFree(vm.frames.used);
    match op {
      case OpSpawn(pid) => SpawnLedger(vm, pid, f);
      case OpMap(pid, v, _, writable) => MappersSet(vm.spaces, pid, v, Pte(i, writable, false), f);
      case OpFork(parent, child) =>
        UncountedUnused(vm.spaces, parent, f);
        ForkCount(vm, parent, child, f);
      case OpStore(pid, v, _) =>
        if IsCow(vm, pid, v) {
          MappersSet(vm.spaces, pid, v, Pte(i, true, false), f);
          MappersSet(vm.spaces, pid, v, Pte(vm.spaces[pid][v].frame, true, false), f);
          InMappers(vm.spaces, pid, v);
        }
      case OpDestroy(pid) => DestroyLedger(vm, pid, f);
    }
  }

  /** A frame in use from the start never becomes a user page. */
  lemma {:induction false} KernelUnmapped(frames: Frames, mem: seq<Page>, ops: seq<CowOp>, f: nat)
    requires Consistent(frames) && |mem| == |frames.refs| && f < |frames.refs| && frames.used[f]
    ensures Mappers(CowRun(Vm(frames, mem, map[]), map[], ops).0.spaces, f) == {}
    decreases |ops|
  {
    if ops != [] {
      var init, op := ops[..|ops| - 1], ops[|ops| - 1];
      KernelUnmapped(frames, mem, init, f);
      LedgerTheorem(frames, mem, init, f);
      RunRefines(Vm(frames, mem, map[]), map[], init);
      hide Enabled, CowStep, EagerStep, Sound, Mappers, Same;
      var w := CowRun(Vm(frames, mem, map[]), map[], init).0;
      if Enabled(w, op) {
        StepUnmapped(w, op, f);
      }
    }
  }

  lemma StepSize(vm: Vm, op: CowOp)
    ensures |CowStep(vm, op).frames.refs| == |vm.frames.refs|
  {
    hide FirstFree, Count, SetPte;
  }

  lemma {:induction false} SameSize(vm: Vm, e: Eager, ops: seq<CowOp>)
    ensures |CowRun(vm, e, ops).0.frames.refs| == |vm.frames.refs|
    decreases |ops|
  {
    if ops != [] {
      hide Enabled, CowStep, EagerStep;
      SameSize(vm, e, ops[..|ops| - 1]);
      StepSize(CowRun(vm, e, ops[..|ops| - 1]).0, ops[|ops| - 1]);
    }
  }

  /** The handler leaves the frame manager alone exactly when the frame's count is 1. */
  lemma CopyTakes(vm: Vm, pid: nat, v: nat)
    requires VmInv(vm) && IsCow(vm, pid, v) && HasFree(vm)
    ensures Resolve(vm, pid, v).frames == vm.frames <==> vm.frames.refs[vm.spaces[pid][v].frame] <= 1
  {
    hide Mappers, FirstFree, SetPte, Sound;
    if vm.frames.refs[vm.spaces[pid][v].frame] > 1 {
      var i := FirstFree(vm.frames.used);
      FreshFrame(vm.frames);
      assert Resolve(vm, pid, v).frames.used[i];
    }
  }

  /** In such a run a store copies a page exactly while another page maps its frame; the last user writes in place. */
  lemma LastUserClaims(frames: Frames, mem: seq<Page>, ops: seq<CowOp>, pid: nat, v: nat)
    requires Consistent(frames) && |mem| == |frames.refs| && Tidy(Vm(frames, mem, map[]), map[], ops)
    requires var w := CowRun(Vm(frames, mem, map[]), map[], ops).0;
             Mapped(w.spaces, pid, v) && w.spaces[pid][v].cow
    ensures var w := CowRun(Vm(frames, mem, map[]), map[], ops).0;
            var f := w.spaces[pid][v].frame;
            && f < |w.frames.refs| && w.frames.refs[f] == |Mappers(w.spaces, f)|
            && (HasFree(w) ==> (Resolve(w, pid, v).frames == w.frames <==> Mappers(w.spaces, f) == {(pid, v)}))
  {
    var vm := Vm(frames, mem, map[]);
    var w := CowRun(vm, map[], ops).0;
    RunRefines(vm, map[], ops);
    SameSize(vm, map[], ops);
    assert Sound(w, pid, v);
    hide CowRun, Mappers, Lost, Tidy, Same, Resolve, Sound, FirstFree;
    var f := w.spaces[pid][v].frame;
    InMappers(w.spaces, pid, v);
    LedgerTheorem(frames, mem, ops, f);
    TidyLosesNothing(vm, map[], ops, f);
    if frames.used[f] {
      KernelUnmapped(frames, mem, ops, f);
    }
    if HasFree(w) {
      CopyTakes(w, pid, v);
    }
    if |Mappers(w.spaces, f)| <= 1 {
      Singleton(Mappers(w.spaces, f), (pid, v));
    }
  }
}
