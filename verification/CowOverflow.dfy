// Frame counts only grow with every fork and exit (src/kernel/vmm.c), so a run reaches the fork whose count wraps.
module CowOverflow {
  import opened Pmm
  import opened Cow

  /** A machine with frame 0 reserved for the kernel, one free frame, and no process. */
  function Bare(k: Page, z: Page): Vm { Vm(Frames([true, false], [1, 0], 1), [k, z], map[]) }

  /** One process with one page, whose frame has been counted n times. */
  function Counts(k: Page, c: Page, n: nat): Vm {
    Vm(Frames([true, true], [1, n], 1), [k, c], map[1 := map[FIRST_PAGE := Pte(1, n == 1, n != 1)]])
  }

  function OnePage(c: Page): Eager { map[1 := map[FIRST_PAGE := Copy(c, true)]] }

  /** A process maps a page; then n - 1 times it forks and the child exits. */
  function ForkExit(c: Page, n: nat): seq<CowOp> {
    if n <= 1 then [OpSpawn(1), OpMap(1, FIRST_PAGE, c, true)] else ForkExit(c, n - 1) + [OpFork(1, 2), OpDestroy(2)]
  }

  lemma RunTwo(vm: Vm, e: Eager, ops: seq<CowOp>, a: CowOp, b: CowOp)
    ensures var (w, d) := CowRun(vm, e, ops);
            Enabled(w, a) && Enabled(CowStep(w, a), b) ==>
              CowRun(vm, e, ops + [a, b]) == (CowStep(CowStep(w, a), b), EagerStep(EagerStep(d, a), b))
  {
    hide Enabled, CowStep, EagerStep;
    var all := ops + [a, b];
    assert all[..|all| - 1] == ops + [a];
    assert (ops + [a])[..|ops|] == ops;
  }

  lemma Single(k: Page, c: Page, n: nat)
    ensures Count(Counts(k, c, n).spaces[1], 1) == 1 && Count(Counts(k, c, n).spaces[1], 0) == 0
  {
    assert Pages(Counts(k, c, n).spaces[1], 0) == {};
    assert Pages(Counts(k, c, n).spaces[1], 1) == {FIRST_PAGE};
  }

  /** One fork and exit adds a reference that nothing removes. */
  lemma Leaks(k: Page, c: Page, n: nat)
    requires 0 < n < COUNT_MOD - 1
    ensures var w := Counts(k, c, n);
            && Enabled(w, OpFork(1, 2)) && Enabled(CowStep(w, OpFork(1, 2)), OpDestroy(2))
            && CowStep(CowStep(w, OpFork(1, 2)), OpDestroy(2)) == Counts(k, c, n + 1)
            && EagerStep(EagerStep(OnePage(c), OpFork(1, 2)), OpDestroy(2)) == OnePage(c)
  {
    var w := Counts(k, c, n);
    Single(k, c, n);
    hide Count;
    var f := Fork(w, 1, 2);
    assert f.frames.refs == [1, n + 1];
    assert ShareAll(w.spaces[1]) == Counts(k, c, n + 1).spaces[1];
    assert Destroy(f, 2).spaces == Counts(k, c, n + 1).spaces;
    assert EagerFork(OnePage(c), 1, 2) - {2} == OnePage(c);
  }

  lemma FirstSteps(k: Page, z: Page, c: Page)
    ensures var a := CowStep(Bare(k, z), OpSpawn(1));
            && Enabled(Bare(k, z), OpSpawn(1)) && Enabled(a, OpMap(1, FIRST_PAGE, c, true))
            && CowStep(a, OpMap(1, FIRST_PAGE, c, true)) == Counts(k, c, 1)
  {
    var a := Spawn(Bare(k, z), 1);
    assert FirstFree(a.frames.used) == 1;
    var b := MapFresh(a, 1, FIRST_PAGE, c, true);
    assert b.spaces[1] == Counts(k, c, 1).spaces[1];
  }

  lemma Starts(k: Page, z: Page, c: Page)
    ensures CowRun(Bare(k, z), map[], [OpSpawn(1), OpMap(1, FIRST_PAGE, c, true)]) == (Counts(k, c, 1), OnePage(c))
  {
    hide CowStep, Enabled, Counts;
    var e: Eager := map[];
    FirstSteps(k, z, c);
    RunTwo(Bare(k, z), e, [], OpSpawn(1), OpMap(1, FIRST_PAGE, c, true));
    assert [] + [OpSpawn(1), OpMap(1, FIRST_PAGE, c, true)] == [OpSpawn(1), OpMap(1, FIRST_PAGE, c, true)];
    assert EagerStep(EagerStep(e, OpSpawn(1)), OpMap(1, FIRST_PAGE, c, true)) == OnePage(c);
    assert CowRun(Bare(k, z), e, []) == (Bare(k, z), e);
  }

  /** After n - 1 forks and exits the frame is counted n times, though one page maps it. */
  lemma {:induction false} Reaches(k: Page, z: Page, c: Page, n: nat)
    requires 0 < n < COUNT_MOD
    ensures CowRun(Bare(k, z), map[], ForkExit(c, n)) == (Counts(k, c, n), OnePage(c))
  {
    hide CowRun, CowStep, EagerStep, Enabled, Counts;
    if n == 1 {
      Starts(k, z, c);
    } else {
      Reaches(k, z, c, n - 1);
      Leaks(k, c, n - 1);
      RunTwo(Bare(k, z), map[], ForkExit(c, n - 1), OpFork(1, 2), OpDestroy(2));
    }
  }

  /**
   * The run of 2^32 - 2 forks and exits is one the refinement covers; the next fork wraps the count to 0, and then one
   * store by the parent shows in the child.
   */
  lemma WrapBreaksIsolation(k: Page, z: Page, old_: Page, new_: Page)
    requires old_ != new_
    ensures var (w, d) := CowRun(Bare(k, z), map[], ForkExit(old_, COUNT_MOD - 1));
            && VmInv(w) && Same(w, d) && 1 in w.spaces && !CountsHaveRoom(w, 1)
            && var f, g := Fork(w, 1, 2), EagerFork(d, 1, 2);
               && Same(f, g) && !VmInv(f)
               && !Same(Store(f, 1, FIRST_PAGE, new_), EagerStore(g, 1, FIRST_PAGE, new_))
               && Load(Store(f, 1, FIRST_PAGE, new_), 2, FIRST_PAGE) == Bytes(new_)
               && EagerLoad(EagerStore(g, 1, FIRST_PAGE, new_), 2, FIRST_PAGE) == Bytes(old_)
  {
    hide CowRun, ForkExit;
    Reaches(k, z, old_, COUNT_MOD - 1);
    assert VmInv(Bare(k, z)) && Same(Bare(k, z), map[]);
    RunRefines(Bare(k, z), map[], ForkExit(old_, COUNT_MOD - 1));
    var w, d := Counts(k, old_, COUNT_MOD - 1), OnePage(old_);
    Single(k, old_, COUNT_MOD - 1);
    hide Count;
    assert !(w.frames.refs[1] + Count(w.spaces[1], 1) < COUNT_MOD);
    ForkSame(w, d, 1, 2);
    ForkKeepsIff(w, 1, 2);
    Wrapped(k, old_, new_);
  }

  lemma Wrapped(k: Page, old_: Page, new_: Page)
    requires old_ != new_
    ensures var f, g := Fork(Counts(k, old_, COUNT_MOD - 1), 1, 2), EagerFork(OnePage(old_), 1, 2);
            var x, y := Store(f, 1, FIRST_PAGE, new_), EagerStore(g, 1, FIRST_PAGE, new_);
            && !Same(x, y) && Load(x, 2, FIRST_PAGE) == Bytes(new_) && EagerLoad(y, 2, FIRST_PAGE) == Bytes(old_)
  {
    Single(k, old_, COUNT_MOD - 1);
    hide Count;
    var f, g := Fork(Counts(k, old_, COUNT_MOD - 1), 1, 2), EagerFork(OnePage(old_), 1, 2);
    assert f.frames.refs[1] == 0;
    var x, y := Store(f, 1, FIRST_PAGE, new_), EagerStore(g, 1, FIRST_PAGE, new_);
    assert Mapped(x.spaces, 2, FIRST_PAGE) && !SamePage(x, y, 2, FIRST_PAGE);
  }
}
