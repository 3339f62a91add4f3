// The kernel's address-space operations as they update memory, each proved equal to its step in Cow.
module CowKernel {
  import opened Pmm
  import opened Cow

  /** The entries below page `hi`, which is as far as a clone has got. */
  function Below(s: Space, hi: nat): Space { map u | u in s && u < hi :: s[u] }

  /** The parent's entries while a clone has shared the pages below `hi`. */
  function PartShared(s: Space, hi: nat): Space { map u | u in s :: if u < hi then s[u].Shared() else s[u] }

  lemma BelowNext(s: Space, hi: nat)
    ensures hi !in s ==> Below(s, hi + 1) == Below(s, hi) && PartShared(s, hi + 1) == PartShared(s, hi)
    ensures hi in s ==> ShareAll(Below(s, hi + 1)) == ShareAll(Below(s, hi))[hi := s[hi].Shared()]
    ensures hi in s ==> PartShared(s, hi + 1) == PartShared(s, hi)[hi := s[hi].Shared()]
    ensures hi in s ==> PartShared(s, hi)[hi] == s[hi]
  {}

  lemma PagesNext(s: Space, hi: nat, f: nat)
    requires hi in s
    ensures Pages(Below(s, hi + 1), f) == Pages(Below(s, hi), f) + (if s[hi].frame == f then {hi} else {})
    ensures hi !in Pages(Below(s, hi), f)
  {}

  lemma CountNext(s: Space, hi: nat, f: nat)
    requires hi in s
    ensures Count(Below(s, hi + 1), f) == Count(Below(s, hi), f) + if s[hi].frame == f then 1 else 0
  {
    hide Pages, Below;
    PagesNext(s, hi, f);
  }

  /** Counting one by one in 32 bits is counting in 32 bits. */
  lemma CountedNext(refs: nat, n: nat)
    ensures (Counted(refs, n) + 1) % COUNT_MOD == Counted(refs, n + 1)
  {}

  predicate UserPages(s: Space) { forall u :: u in s ==> FIRST_PAGE <= u < LAST_PAGE }

  class Kernel {
    const pmm: Manager
    var mem: seq<Page>
    var spaces: Spaces

    ghost function View(): Vm
      reads this, pmm
    {
      Vm(pmm.frames, mem, spaces)
    }

    ghost predicate Valid()
      reads this, pmm
    {
      VmInv(View()) && pmm.frames.reserved > 0 && forall pid :: pid in spaces ==> UserPages(spaces[pid])
    }

    constructor (pmm: Manager, mem: seq<Page>)
      requires pmm.Valid() && |mem| == |pmm.frames.refs| && pmm.frames.reserved > 0
      ensures Valid() && this.pmm == pmm && View() == Vm(pmm.frames, mem, map[])
    {
      this.pmm, this.mem, spaces := pmm, mem, map[];
    }

    /** One leaf of vmm_clone_address_space: write-protect the parent's entry, map the child's, count the frame. */
    method ClonePage(parent: nat, child: nat, v: nat)
      requires Mapped(spaces, parent, v) && child in spaces && child != parent
      modifies this`spaces, pmm
      ensures var t := old(spaces)[parent][v];
              && spaces == SetPte(SetPte(old(spaces), parent, v, t.Shared()), child, v, t.Shared())
              && pmm.frames == Share(old(pmm.frames), t.frame)
    {
      var t := spaces[parent][v];
      if t.writable {
        t := Pte(t.frame, false, true);
        spaces := SetPte(spaces, parent, v, t);
      } else {
        assert spaces[parent][v := t] == spaces[parent];
        assert spaces[parent := spaces[parent]] == spaces;
      }
      spaces := SetPte(spaces, child, v, t);
      FrameAddress(t.frame);
      pmm.RefInc(t.frame * PAGE_SIZE);
    }

    /** vmm_clone_address_space over the user slots, leaf by leaf; the kernel stays sound iff no count wraps. */
    method Clone(parent: nat, child: nat)
      requires Valid() && parent in spaces && child !in spaces
      modifies this`spaces, pmm
      ensures View() == Fork(old(View()), parent, child)
      ensures Valid() <==> CountsHaveRoom(old(View()), parent)
    {
      ghost var vm := View();
      ghost var s := spaces[parent];
      ForkKeepsIff(vm, parent, child);
      hide VmInv, Fork, Count, CountsHaveRoom;
      spaces := spaces[child := map[]];
      CloneStart(vm, parent, child);
      for v := FIRST_PAGE to LAST_PAGE
        invariant mem == vm.mem
        invariant Cloned(vm, View(), parent, child, v)
      {
        CloneNext(vm, View(), parent, child, v);
        if v in spaces[parent] {
          ClonePage(parent, child, v);
        }
      }
      CloneDone(vm, View(), parent, child);
    }

    /** pmm_alloc as its callers use it: a frame number, unless the address is NULL. */
    method TakeFrame() returns (ok: bool, frame: nat)
      requires Valid()
      modifies pmm
      ensures ok == old(HasFree(View()))
      ensures ok ==> frame == FirstFree(old(pmm.frames.used))
      ensures ok ==> frame < |mem| == |old(pmm.frames.refs)| == |old(pmm.frames.used)|
      ensures pmm.frames == if ok then Take(old(pmm.frames), frame) else old(pmm.frames)
    {
      hide Sound, Mapped;
      ghost var p := pmm.frames;
      if FirstFree(p.used) < |p.used| {
        FreshFrame(p);
        FrameAddress(FirstFree(p.used));
      }
      var address := pmm.Alloc();
      ok, frame := address != 0, address / PAGE_SIZE;
    }

    /** A new page mapped into a space, as the program loader and the heap break do. */
    method MapPage(pid: nat, v: nat, content: Page, writable: bool) returns (ok: bool)
      requires Valid() && pid in spaces && FIRST_PAGE <= v < LAST_PAGE
      modifies this, pmm
      ensures Valid() && View() == MapFresh(old(View()), pid, v, content, writable)
      ensures ok == old(HasFree(View()))
    {
      hide VmInv, FirstFree;
      ghost var vm := View();
      MapFreshKeeps(vm, pid, v, content, writable);
      var frame;
      ok, frame := TakeFrame();
      MapFreshBlocked(vm, pid, v, content, writable);
      if ok {
        mem := mem[frame := content];
        spaces := SetPte(spaces, pid, v, Pte(frame, writable, false));
      }
    }

    /** vmm_page_fault_handler on a present write fault; an unresolved fault ends the process elsewhere. */
    method WriteFault(pid: nat, v: nat) returns (resolved: bool)
      requires Valid()
      modifies this, pmm
      ensures Valid() && View() == Resolve(old(View()), pid, v)
      ensures resolved <==> old(IsCow(View(), pid, v) && CanStore(View(), pid, v))
    {
      hide VmInv, FirstFree;
      ghost var vm := View();
      ResolveKeeps(vm, pid, v);
      if pid !in spaces || v !in spaces[pid] || !spaces[pid][v].cow {
        return false;
      }
      MappedInRange(vm, pid, v);
      var shared := spaces[pid][v].frame;
      FrameAddress(shared);
      if pmm.RefGet(shared * PAGE_SIZE) > 1 {
        var ok, frame := TakeFrame();
        if !ok {
          return false;
        }
        mem := mem[frame := mem[shared]];
        spaces := SetPte(spaces, pid, v, Pte(frame, true, false));
        FreeAfterTake(vm, frame);
        pmm.Free(shared * PAGE_SIZE);
      } else {
        spaces := SetPte(spaces, pid, v, Pte(shared, true, false));
      }
      resolved := true;
    }

    /** A user store: through a writable entry, after the fault handler has had its turn. */
    method UserStore(pid: nat, v: nat, content: Page)
      requires Valid()
      modifies this, pmm
      ensures Valid() && View() == Store(old(View()), pid, v, content)
    {
      hide VmInv, FirstFree, Resolve;
      ghost var vm := View();
      StoreKeeps(vm, pid, v, content);
      ResolveKeeps(vm, pid, v);
      var _ := WriteFault(pid, v);
      if pid in spaces && v in spaces[pid] && spaces[pid][v].writable {
        MappedInRange(View(), pid, v);
        mem := mem[spaces[pid][v].frame := content];
      }
    }
  }

  lemma MapFreshBlocked(vm: Vm, pid: nat, v: nat, content: Page, writable: bool)
    requires VmInv(vm)
    ensures HasFree(vm) <==> FirstFree(vm.frames.used) < |vm.frames.used|
    ensures !HasFree(vm) ==> MapFresh(vm, pid, v, content, writable) == vm
    ensures |vm.frames.used| == |vm.frames.refs| == |vm.mem|
  {
    hide FirstFree, Sound;
  }

  lemma MappedInRange(vm: Vm, pid: nat, v: nat)
    requires VmInv(vm) && Mapped(vm.spaces, pid, v)
    ensures vm.spaces[pid][v].frame < |vm.frames.refs| == |vm.mem|
    ensures vm.spaces[pid][v].cow ==> IsCow(vm, pid, v)
  {
    hide Mappers, Consistent;
    assert Sound(vm, pid, v);
  }

  /** Taking a fresh frame leaves the bookkeeping sound, so the shared one can be dropped. */
  lemma FreeAfterTake(vm: Vm, frame: nat)
    requires VmInv(vm) && HasFree(vm) && frame == FirstFree(vm.frames.used)
    ensures Consistent(Take(vm.frames, frame))
  {
    hide Sound, Mappers, FirstFree;
    FreshFrame(vm.frames);
  }

  lemma FrameAddress(f: nat)
    ensures (f * PAGE_SIZE) % PAGE_SIZE == 0 && (f * PAGE_SIZE) / PAGE_SIZE == f
  {}

  /** How far a clone has got: the pages below `hi` are shared, mapped and counted, the rest are untouched. */
  ghost predicate Cloned(vm: Vm, w: Vm, parent: nat, child: nat, hi: nat)
    requires parent in vm.spaces
  {
    var s := vm.spaces[parent];
    && w.mem == vm.mem
    && w.spaces == vm.spaces[parent := PartShared(s, hi)][child := ShareAll(Below(s, hi))]
    && w.frames.used == vm.frames.used && w.frames.reserved == vm.frames.reserved
    && |w.frames.refs| == |vm.frames.refs|
    && forall i :: 0 <= i < |vm.frames.refs| ==> w.frames.refs[i] == Counted(vm.frames.refs[i], Count(Below(s, hi), i))
  }

  lemma CloneStart(vm: Vm, parent: nat, child: nat)
    requires Consistent(vm.frames) && parent in vm.spaces && child !in vm.spaces && UserPages(vm.spaces[parent])
    ensures Cloned(vm, vm.(spaces := vm.spaces[child := map[]]), parent, child, FIRST_PAGE)
  {
    var s := vm.spaces[parent];
    assert Below(s, FIRST_PAGE) == map[] && PartShared(s, FIRST_PAGE) == s && ShareAll(map[]) == map[];
    assert forall i :: Pages(map[], i) == {};
    assert vm.spaces[parent := s] == vm.spaces;
  }

  function AfterPage(w: Vm, parent: nat, child: nat, v: nat): Vm
    requires Mapped(w.spaces, parent, v) && child in w.spaces
  {
    var t := w.spaces[parent][v];
    w.(spaces := SetPte(SetPte(w.spaces, parent, v, t.Shared()), child, v, t.Shared()),
            frames := Share(w.frames, t.frame))
  }

  lemma CloneNext(vm: Vm, w: Vm, parent: nat, child: nat, v: nat)
    requires parent in vm.spaces && child !in vm.spaces && Cloned(vm, w, parent, child, v)
    ensures parent in w.spaces && child in w.spaces && parent != child
    ensures v !in w.spaces[parent] ==> Cloned(vm, w, parent, child, v + 1)
    ensures v in w.spaces[parent] ==> Cloned(vm, AfterPage(w, parent, child, v), parent, child, v + 1)
  {
    hide Count, Below, PartShared, Counted;
    var s := vm.spaces[parent];
    BelowNext(s, v);
    PartKeys(s, v);
    if v in w.spaces[parent] {
      var x := AfterPage(w, parent, child, v);
      forall i | 0 <= i < |vm.frames.refs|
        ensures x.frames.refs[i] == Counted(vm.frames.refs[i], Count(Below(s, v + 1), i))
      {
        CountNext(s, v, i);
        CountedNext(vm.frames.refs[i], Count(Below(s, v), i));
      }
    }
  }

  lemma PartKeys(s: Space, hi: nat)
    ensures PartShared(s, hi).Keys == s.Keys
  {}

  lemma CloneDone(vm: Vm, w: Vm, parent: nat, child: nat)
    requires parent in vm.spaces && child !in vm.spaces && UserPages(vm.spaces[parent])
    requires Cloned(vm, w, parent, child, LAST_PAGE)
    ensures w == Fork(vm, parent, child)
  {
    hide Count;
    var s := vm.spaces[parent];
    assert Below(s, LAST_PAGE) == s && PartShared(s, LAST_PAGE) == ShareAll(s);
    assert w.frames.refs == Fork(vm, parent, child).frames.refs;
  }
}
