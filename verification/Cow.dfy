// Copy-on-write fork (src/kernel/vmm.c over src/kernel/memory.c): address spaces share frames until one writes.
// An address space is the flat map from page number to leaf entry that its page tables translate by.
module Cow {
  import opened Basics
  import opened SeqArith
  import opened Pmm

  // Page numbers covered by PML4 slots 1 to 255.
  const FIRST_PAGE: nat := 0x800_0000
  const LAST_PAGE: nat := 0x8_0000_0000

  type Page = seq<byte>

  /** A present leaf entry. */
  datatype Pte = Pte(frame: nat, writable: bool, cow: bool) {
    /** What fork makes of an entry, in the parent and in the child. */
    function Shared(): Pte { if writable then Pte(frame, false, true) else this }
  }

  type Space = map<nat, Pte>

  type Spaces = map<nat, Space>

  datatype Vm = Vm(frames: Frames, mem: seq<Page>, spaces: Spaces)

  /** Who maps frame f, as (process, page) pairs. */
  function Mappers(spaces: Spaces, f: nat): set<(nat, nat)> {
    set pid, v | pid in spaces && v in spaces[pid] && spaces[pid][v].frame == f :: (pid, v)
  }

  predicate Mapped(spaces: Spaces, pid: nat, v: nat) { pid in spaces && v in spaces[pid] }

  /** One leaf entry is sound: its frame is in use, counted at least once per mapper, and private if writable. */
  ghost predicate Sound(vm: Vm, pid: nat, v: nat)
    requires Mapped(vm.spaces, pid, v)
  {
    var t := vm.spaces[pid][v];
    && vm.frames.reserved <= t.frame < |vm.frames.refs|
    && !(t.writable && t.cow)
    && |Mappers(vm.spaces, t.frame)| <= vm.frames.refs[t.frame]
    && (t.writable ==> Mappers(vm.spaces, t.frame) == {(pid, v)})
  }

  ghost predicate VmInv(vm: Vm) {
    && Consistent(vm.frames)
    && |vm.mem| == |vm.frames.refs|
    && forall pid, v :: Mapped(vm.spaces, pid, v) ==> Sound(vm, pid, v)
  }

  // ---- the reference: fork copies every page at once ----

  datatype Copy = Copy(content: Page, mayWrite: bool)

  type Eager = map<nat, map<nat, Copy>>

  /** Process by process and page by page, both memories hold the same bytes with the same permission. */
  ghost predicate Same(vm: Vm, e: Eager) {
    && vm.spaces.Keys == e.Keys
    && (forall pid :: pid in e ==> vm.spaces[pid].Keys == e[pid].Keys)
    && forall pid, v :: Mapped(vm.spaces, pid, v) ==> SamePage(vm, e, pid, v)
  }

  ghost predicate SamePage(vm: Vm, e: Eager, pid: nat, v: nat)
    requires Mapped(vm.spaces, pid, v)
  {
    && pid in e && v in e[pid]
    && var t := vm.spaces[pid][v];
       t.frame < |vm.mem| && vm.mem[t.frame] == e[pid][v].content && (e[pid][v].mayWrite <==> t.writable || t.cow)
  }

  // ---- steps ----

  function SetPte(spaces: Spaces, pid: nat, v: nat, t: Pte): Spaces
    requires pid in spaces
  {
    var s: Space := spaces[pid][v := t];
    spaces[pid := s]
  }

  /** A new page: a fresh frame with the given contents is mapped. */
  function MapFresh(vm: Vm, pid: nat, v: nat, content: Page, writable: bool): Vm {
    var i := FirstFree(vm.frames.used);
    if pid !in vm.spaces || i >= |vm.frames.used| || i >= |vm.frames.refs| || i >= |vm.mem| then vm else
    Vm(Take(vm.frames, i), vm.mem[i := content], SetPte(vm.spaces, pid, v, Pte(i, writable, false)))
  }

  function ShareAll(s: Space): Space { map v | v in s :: s[v].Shared() }

  function Pages(s: Space, f: nat): set<nat> { set v | v in s && s[v].frame == f }

  /** How many pages of a space map frame f. */
  function Count(s: Space, f: nat): nat { |Pages(s, f)| }

  /** A 32-bit count after n more references. */
  function Counted(refs: nat, n: nat): nat { (refs + n) % COUNT_MOD }

  /** Fork: both spaces end up with the shared entries and each frame gains one reference per page, in 32 bits. */
  function Fork(vm: Vm, parent: nat, child: nat): Vm {
    if parent !in vm.spaces then vm else
    var s := vm.spaces[parent];
    var refs := seq(|vm.frames.refs|, i requires 0 <= i < |vm.frames.refs| => Counted(vm.frames.refs[i], Count(s, i)));
    vm.(frames := vm.frames.(refs := refs), spaces := vm.spaces[parent := ShareAll(s)][child := ShareAll(s)])
  }

  predicate HasFree(vm: Vm) {
    FirstFree(vm.frames.used) < |vm.frames.used| && |vm.frames.used| <= |vm.frames.refs| && |vm.frames.used| <= |vm.mem|
  }

  predicate IsCow(vm: Vm, pid: nat, v: nat) {
    Mapped(vm.spaces, pid, v) && vm.spaces[pid][v].cow && vm.spaces[pid][v].frame < |vm.frames.refs| <= |vm.mem|
  }

  /** A copy-on-write frame that nobody else uses becomes writable where it is. */
  function Claim(vm: Vm, pid: nat, v: nat): Vm
    requires IsCow(vm, pid, v)
  {
    vm.(spaces := SetPte(vm.spaces, pid, v, Pte(vm.spaces[pid][v].frame, true, false)))
  }

  /** A shared frame is copied to a fresh one for the writer, and loses one reference. */
  function Split(vm: Vm, pid: nat, v: nat): Vm
    requires IsCow(vm, pid, v) && HasFree(vm)
  {
    var f, i := vm.spaces[pid][v].frame, FirstFree(vm.frames.used);
    Vm(Drop(Take(vm.frames, i), f), vm.mem[i := vm.mem[f]], SetPte(vm.spaces, pid, v, Pte(i, true, false)))
  }

  /** The write-fault handler; any other fault, or one it cannot find a frame for, changes nothing here. */
  function Resolve(vm: Vm, pid: nat, v: nat): Vm {
    if !IsCow(vm, pid, v) then vm
    else if vm.frames.refs[vm.spaces[pid][v].frame] <= 1 then Claim(vm, pid, v)
    else if HasFree(vm) then Split(vm, pid, v)
    else vm
  }

  /** A user store to a page; it takes effect only through a writable entry. */
  function Store(vm: Vm, pid: nat, v: nat, content: Page): Vm {
    var w := Resolve(vm, pid, v);
    if Mapped(w.spaces, pid, v) && w.spaces[pid][v].writable && w.spaces[pid][v].frame < |w.mem|
    then w.(mem := w.mem[w.spaces[pid][v].frame := content]) else w
  }

  /** A new process starts with no user pages. */
  function Spawn(vm: Vm, pid: nat): Vm { vm.(spaces := vm.spaces[pid := map[]]) }

  /** Address-space teardown drops the mappings; the frames keep their counts. */
  function Destroy(vm: Vm, pid: nat): Vm { vm.(spaces := vm.spaces - {pid}) }

  // ---- what each step keeps ----

  lemma MappersSet(spaces: Spaces, pid: nat, v: nat, t: Pte, f: nat)
    requires pid in spaces
    ensures Mappers(SetPte(spaces, pid, v, t), f) ==
            (Mappers(spaces, f) - {(pid, v)}) + (if t.frame == f then {(pid, v)} else {})
  {
    var n := SetPte(spaces, pid, v, t);
    forall p, w
      ensures (p, w) in Mappers(n, f) <==>
              (p, w) in (Mappers(spaces, f) - {(pid, v)}) + (if t.frame == f then {(pid, v)} else {})
    {}
  }

  /** Nobody maps an unused frame. */
  lemma UnusedUnmapped(vm: Vm, i: nat)
    requires VmInv(vm) && i < |vm.frames.used| && !vm.frames.used[i]
    ensures Mappers(vm.spaces, i) == {}
  {
    if m :| m in Mappers(vm.spaces, i) {
      assert Mapped(vm.spaces, m.0, m.1);
      assert Sound(vm, m.0, m.1);
    }
  }

  lemma InMappers(spaces: Spaces, pid: nat, v: nat)
    requires Mapped(spaces, pid, v)
    ensures (pid, v) in Mappers(spaces, spaces[pid][v].frame)
  {}

  lemma MapFreshEntry(vm: Vm, pid: nat, v: nat, content: Page, writable: bool, p: nat, u: nat)
    requires VmInv(vm)
    requires Mapped(MapFresh(vm, pid, v, content, writable).spaces, p, u)
    ensures Sound(MapFresh(vm, pid, v, content, writable), p, u)
  {
    hide Mappers, FirstFree, Consistent;
    var w, i := MapFresh(vm, pid, v, content, writable), FirstFree(vm.frames.used);
    if w != vm {
      FreshFrame(vm.frames);
      UnusedUnmapped(vm, i);
      var f := w.spaces[p][u].frame;
      MappersSet(vm.spaces, pid, v, Pte(i, writable, false), f);
    }
    if (p, u) != (pid, v) || w == vm {
      assert Mapped(vm.spaces, p, u) && Sound(vm, p, u);
      InMappers(vm.spaces, p, u);
    }
  }

  /** The frame first fit finds is free, so it is not the kernel's and taking it keeps the books. */
  lemma FreshFrame(p: Frames)
    requires Consistent(p) && FirstFree(p.used) < |p.used|
    ensures var i := FirstFree(p.used); p.reserved <= i < |p.refs| && !p.used[i] && p.refs[i] == 0
    ensures Consistent(Take(p, FirstFree(p.used)))
  {}

  lemma MapFreshKeeps(vm: Vm, pid: nat, v: nat, content: Page, writable: bool)
    requires VmInv(vm)
    ensures VmInv(MapFresh(vm, pid, v, content, writable))
  {
    hide Mappers, FirstFree, Consistent, Sound;
    var w := MapFresh(vm, pid, v, content, writable);
    forall p: nat, u: nat | Mapped(w.spaces, p, u)
      ensures Sound(w, p, u)
    {
      MapFreshEntry(vm, pid, v, content, writable, p, u);
    }
    if w != vm {
      FreshFrame(vm.frames);
    }
  }

  // ---- fork ----

  function Pairs(pid: nat, vs: set<nat>): set<(nat, nat)> { set v | v in vs :: (pid, v) }

  lemma {:induction false} PairCount(pid: nat, vs: set<nat>)
    ensures |Pairs(pid, vs)| == |vs|
    decreases |vs|
  {
    if vs == {} {
      assert Pairs(pid, vs) == {};
    } else {
      var x :| x in vs;
      PairCount(pid, vs - {x});
      assert (pid, x) !in Pairs(pid, vs - {x});
      assert Pairs(pid, vs) == Pairs(pid, vs - {x}) + {(pid, x)};
    }
  }

  lemma MappersIff(spaces: Spaces, f: nat, p: nat, w: nat)
    ensures (p, w) in Mappers(spaces, f) <==> Mapped(spaces, p, w) && spaces[p][w].frame == f
  {}

  lemma ForkMappers(spaces: Spaces, parent: nat, child: nat, f: nat)
    requires parent in spaces && child !in spaces
    ensures var s := ShareAll(spaces[parent]);
            var n := spaces[parent := s][child := s];
            && Mappers(n, f) == Mappers(spaces, f) + Pairs(child, Pages(spaces[parent], f))
            && |Mappers(n, f)| == |Mappers(spaces, f)| + Count(spaces[parent], f)
  {
    hide Mappers;
    var s := ShareAll(spaces[parent]);
    var n := spaces[parent := s][child := s];
    var extra := Pairs(child, Pages(spaces[parent], f));
    forall m: (nat, nat)
      ensures m in Mappers(n, f) <==> m in Mappers(spaces, f) + extra
      ensures !(m in Mappers(spaces, f) && m in extra)
    {
      MappersIff(n, f, m.0, m.1);
      MappersIff(spaces, f, m.0, m.1);
    }
    assert Mappers(n, f) == Mappers(spaces, f) + extra;
    assert Mappers(spaces, f) !! extra;
    PairCount(child, Pages(spaces[parent], f));
  }

  /** No frame's references, with those of a fork, reach 2^32. */
  ghost predicate CountsHaveRoom(vm: Vm, parent: nat)
    requires parent in vm.spaces
  {
    forall i :: 0 <= i < |vm.frames.refs| ==> vm.frames.refs[i] + Count(vm.spaces[parent], i) < COUNT_MOD
  }

  ghost predicate CanFork(vm: Vm, parent: nat, child: nat) {
    parent in vm.spaces && child !in vm.spaces && CountsHaveRoom(vm, parent)
  }

  lemma RoomAt(vm: Vm, parent: nat, i: nat)
    requires parent in vm.spaces && CountsHaveRoom(vm, parent) && i < |vm.frames.refs|
    ensures Counted(vm.frames.refs[i], Count(vm.spaces[parent], i)) == vm.frames.refs[i] + Count(vm.spaces[parent], i)
  {
    hide Count;
  }

  lemma ForkEntry(vm: Vm, parent: nat, child: nat, p: nat, u: nat)
    requires VmInv(vm) && CanFork(vm, parent, child) && Mapped(Fork(vm, parent, child).spaces, p, u)
    ensures Sound(Fork(vm, parent, child), p, u)
  {
    hide Mappers, Count, Consistent, CountsHaveRoom, Counted;
    var w := Fork(vm, parent, child);
    var q := if p == child then parent else p;
    var f := w.spaces[p][u].frame;
    assert Mapped(vm.spaces, q, u) && Sound(vm, q, u);
    ForkMappers(vm.spaces, parent, child, f);
    RoomAt(vm, parent, f);
    InMappers(vm.spaces, q, u);
    if w.spaces[p][u].writable {
      NotShared(vm, parent, q, u);
    }
  }

  /** A frame that some other process may write is no page of the parent. */
  lemma NotShared(vm: Vm, parent: nat, p: nat, u: nat)
    requires VmInv(vm) && Mapped(vm.spaces, p, u) && vm.spaces[p][u].writable && parent in vm.spaces && p != parent
    ensures Pages(vm.spaces[parent], vm.spaces[p][u].frame) == {}
  {
    hide Mappers, Consistent;
    var f := vm.spaces[p][u].frame;
    assert Sound(vm, p, u);
    forall v | v in vm.spaces[parent]
      ensures vm.spaces[parent][v].frame != f
    {
      InMappers(vm.spaces, parent, v);
    }
  }

  lemma ForkKeeps(vm: Vm, parent: nat, child: nat)
    requires VmInv(vm) && CanFork(vm, parent, child)
    ensures VmInv(Fork(vm, parent, child))
  {
    hide Mappers, Sound, Count;
    var w := Fork(vm, parent, child);
    forall p: nat, u: nat | Mapped(w.spaces, p, u)
      ensures Sound(w, p, u)
    {
      ForkEntry(vm, parent, child, p, u);
    }
    forall i | 0 <= i < |vm.frames.refs|
      ensures (w.frames.used[i] <==> w.frames.refs[i] > 0) && w.frames.refs[i] < COUNT_MOD
    {
      RoomAt(vm, parent, i);
      if !vm.frames.used[i] {
        UnusedUnmapped(vm, i);
        UncountedUnused(vm.spaces, parent, i);
      }
    }
  }

  /** A fork that would wrap a count leaves that frame with fewer references than mappings. */
  lemma ForkOverflows(vm: Vm, parent: nat, child: nat, i: nat)
    requires VmInv(vm) && parent in vm.spaces && child !in vm.spaces
    requires i < |vm.frames.refs| && vm.frames.refs[i] + Count(vm.spaces[parent], i) >= COUNT_MOD
    ensures !VmInv(Fork(vm, parent, child))
  {
    hide Mappers, Consistent;
    var s, w := vm.spaces[parent], Fork(vm, parent, child);
    RefsInRange(vm, i);
    assert Pages(s, i) != {};
    var v :| v in Pages(s, i);
    assert Sound(vm, parent, v);
    SpaceCount(vm.spaces, parent, i);
    ForkMappers(vm.spaces, parent, child, i);
    assert Mapped(w.spaces, parent, v) && w.spaces[parent][v].frame == i;
    assert !Sound(w, parent, v);
  }

  lemma RefsInRange(vm: Vm, i: nat)
    requires VmInv(vm) && i < |vm.frames.refs|
    ensures vm.frames.refs[i] < COUNT_MOD
  {}

  lemma SpaceCount(spaces: Spaces, pid: nat, f: nat)
    requires pid in spaces
    ensures Count(spaces[pid], f) <= |Mappers(spaces, f)|
  {
    PairCount(pid, Pages(spaces[pid], f));
    SubsetSize(Pairs(pid, Pages(spaces[pid], f)), Mappers(spaces, f));
  }

  /** Fork keeps the books, and with them the isolation of processes, exactly when no 32-bit count wraps. */
  lemma ForkKeepsIff(vm: Vm, parent: nat, child: nat)
    requires VmInv(vm) && parent in vm.spaces && child !in vm.spaces
    ensures VmInv(Fork(vm, parent, child)) <==> CountsHaveRoom(vm, parent)
  {
    hide VmInv, Fork, Count;
    if CountsHaveRoom(vm, parent) {
      ForkKeeps(vm, parent, child);
    } else {
      var i :| 0 <= i < |vm.frames.refs| && vm.frames.refs[i] + Count(vm.spaces[parent], i) >= COUNT_MOD;
      ForkOverflows(vm, parent, child, i);
    }
  }

  lemma UncountedUnused(spaces: Spaces, parent: nat, i: nat)
    requires parent in spaces && Mappers(spaces, i) == {}
    ensures Count(spaces[parent], i) == 0
  {
    forall v | v in spaces[parent]
      ensures spaces[parent][v].frame != i
    {
      if spaces[parent][v].frame == i {
        InMappers(spaces, parent, v);
      }
    }
    assert Pages(spaces[parent], i) == {};
  }

  // ---- the write fault ----

  lemma Singleton<T>(s: set<T>, x: T)
    requires x in s && |s| <= 1
    ensures s == {x}
  {
    SubsetSize({x}, s);
    if y :| y in s && y != x {
      SubsetSize({x, y}, s);
    }
  }

  lemma ClaimEntry(vm: Vm, pid: nat, v: nat, p: nat, u: nat)
    requires VmInv(vm) && IsCow(vm, pid, v) && vm.frames.refs[vm.spaces[pid][v].frame] <= 1
    requires Mapped(Claim(vm, pid, v).spaces, p, u)
    ensures Sound(Claim(vm, pid, v), p, u)
  {
    hide Mappers, Consistent;
    var w, f := Claim(vm, pid, v), vm.spaces[pid][v].frame;
    assert Sound(vm, pid, v);
    InMappers(vm.spaces, pid, v);
    Singleton(Mappers(vm.spaces, f), (pid, v));
    MappersSet(vm.spaces, pid, v, w.spaces[pid][v], w.spaces[p][u].frame);
    if (p, u) != (pid, v) {
      assert Mapped(vm.spaces, p, u) && Sound(vm, p, u);
      InMappers(vm.spaces, p, u);
    }
  }

  lemma SplitEntry(vm: Vm, pid: nat, v: nat, p: nat, u: nat)
    requires VmInv(vm) && IsCow(vm, pid, v) && HasFree(vm) && vm.frames.refs[vm.spaces[pid][v].frame] > 1
    requires Mapped(Split(vm, pid, v).spaces, p, u)
    ensures Sound(Split(vm, pid, v), p, u)
  {
    hide Mappers, FirstFree, Consistent;
    var w, f, i := Split(vm, pid, v), vm.spaces[pid][v].frame, FirstFree(vm.frames.used);
    var g := w.spaces[p][u].frame;
    assert Sound(vm, pid, v);
    FreshFrame(vm.frames);
    UnusedUnmapped(vm, i);
    InMappers(vm.spaces, pid, v);
    MappersSet(vm.spaces, pid, v, w.spaces[pid][v], g);
    if (p, u) != (pid, v) {
      assert Mapped(vm.spaces, p, u) && Sound(vm, p, u);
      InMappers(vm.spaces, p, u);
    }
  }

  lemma ClaimKeeps(vm: Vm, pid: nat, v: nat)
    requires VmInv(vm) && IsCow(vm, pid, v) && vm.frames.refs[vm.spaces[pid][v].frame] <= 1
    ensures VmInv(Claim(vm, pid, v))
  {
    hide Mappers, Consistent, Sound;
    var w := Claim(vm, pid, v);
    forall p: nat, u: nat | Mapped(w.spaces, p, u)
      ensures Sound(w, p, u)
    {
      ClaimEntry(vm, pid, v, p, u);
    }
  }

  lemma SplitKeeps(vm: Vm, pid: nat, v: nat)
    requires VmInv(vm) && IsCow(vm, pid, v) && HasFree(vm) && vm.frames.refs[vm.spaces[pid][v].frame] > 1
    ensures VmInv(Split(vm, pid, v))
  {
    hide Mappers, FirstFree, Consistent, Sound;
    var w := Split(vm, pid, v);
    forall p: nat, u: nat | Mapped(w.spaces, p, u)
      ensures Sound(w, p, u)
    {
      SplitEntry(vm, pid, v, p, u);
    }
    FreshFrame(vm.frames);
    DropKeeps(Take(vm.frames, FirstFree(vm.frames.used)), vm.spaces[pid][v].frame);
  }

  lemma ResolveKeeps(vm: Vm, pid: nat, v: nat)
    requires VmInv(vm)
    ensures VmInv(Resolve(vm, pid, v))
  {
    hide VmInv, Claim, Split, FirstFree;
    if IsCow(vm, pid, v) {
      if vm.frames.refs[vm.spaces[pid][v].frame] <= 1 {
        ClaimKeeps(vm, pid, v);
      } else if HasFree(vm) {
        SplitKeeps(vm, pid, v);
      }
    }
  }

  lemma DestroyKeeps(vm: Vm, pid: nat)
    requires VmInv(vm)
    ensures VmInv(Destroy(vm, pid))
  {
    hide Consistent;
    var w := Destroy(vm, pid);
    forall p: nat, u: nat | Mapped(w.spaces, p, u)
      ensures Sound(w, p, u)
    {
      assert Mapped(vm.spaces, p, u) && Sound(vm, p, u);
      var f := w.spaces[p][u].frame;
      InMappers(w.spaces, p, u);
      SubsetSize(Mappers(w.spaces, f), Mappers(vm.spaces, f));
    }
  }

  lemma SpawnKeeps(vm: Vm, pid: nat)
    requires VmInv(vm) && pid !in vm.spaces
    ensures VmInv(Spawn(vm, pid))
  {
    hide Consistent;
    var w := Spawn(vm, pid);
    forall p: nat, u: nat | Mapped(w.spaces, p, u)
      ensures Sound(w, p, u)
    {
      assert Mapped(vm.spaces, p, u) && Sound(vm, p, u);
      var f := w.spaces[p][u].frame;
      assert Mappers(w.spaces, f) == Mappers(vm.spaces, f);
    }
  }

  // ---- the same bytes as with eager copies ----

  function EagerMap(e: Eager, pid: nat, v: nat, content: Page, writable: bool): Eager {
    if pid !in e then e else
    var s: map<nat, Copy> := e[pid][v := Copy(content, writable)];
    e[pid := s]
  }

  function EagerFork(e: Eager, parent: nat, child: nat): Eager {
    if parent in e then e[child := e[parent]] else e
  }

  function EagerStore(e: Eager, pid: nat, v: nat, content: Page): Eager {
    if pid in e && v in e[pid] && e[pid][v].mayWrite then EagerMap(e, pid, v, content, true) else e
  }

  lemma MapFreshSame(vm: Vm, e: Eager, pid: nat, v: nat, content: Page, writable: bool)
    requires VmInv(vm) && Same(vm, e) && pid in vm.spaces && HasFree(vm)
    ensures Same(MapFresh(vm, pid, v, content, writable), EagerMap(e, pid, v, content, writable))
  {
    hide Mappers, FirstFree, Consistent, Sound;
    var w, d := MapFresh(vm, pid, v, content, writable), EagerMap(e, pid, v, content, writable);
    var i := FirstFree(vm.frames.used);
    UnusedUnmapped(vm, i) by { FreshFrame(vm.frames); }
    forall p: nat, u: nat | Mapped(w.spaces, p, u)
      ensures SamePage(w, d, p, u)
    {
      if (p, u) != (pid, v) {
        assert Mapped(vm.spaces, p, u) && SamePage(vm, e, p, u);
        InMappers(vm.spaces, p, u);
      }
    }
  }

  lemma ForkSame(vm: Vm, e: Eager, parent: nat, child: nat)
    requires Same(vm, e) && parent in vm.spaces && child !in vm.spaces
    ensures Same(Fork(vm, parent, child), EagerFork(e, parent, child))
  {
    hide Count, SamePage;
    var w, d := Fork(vm, parent, child), EagerFork(e, parent, child);
    ForkKeys(vm, e, parent, child);
    hide Fork, EagerFork;
    forall p: nat, u: nat | Mapped(w.spaces, p, u)
      ensures SamePage(w, d, p, u)
    {
      ForkSamePage(vm, e, parent, child, p, u);
    }
  }

  lemma ForkKeys(vm: Vm, e: Eager, parent: nat, child: nat)
    requires Same(vm, e) && parent in vm.spaces && child !in vm.spaces
    ensures var w, d := Fork(vm, parent, child), EagerFork(e, parent, child);
            w.spaces.Keys == d.Keys && forall pid :: pid in d ==> w.spaces[pid].Keys == d[pid].Keys
  {
    hide Count, SamePage;
  }

  lemma ForkSamePage(vm: Vm, e: Eager, parent: nat, child: nat, p: nat, u: nat)
    requires Same(vm, e) && parent in vm.spaces && child !in vm.spaces && Mapped(Fork(vm, parent, child).spaces, p, u)
    ensures SamePage(Fork(vm, parent, child), EagerFork(e, parent, child), p, u)
  {
    hide Count;
    var q := if p == child then parent else p;
    assert Mapped(vm.spaces, q, u) && SamePage(vm, e, q, u);
  }

  lemma ResolveSame(vm: Vm, e: Eager, pid: nat, v: nat)
    requires VmInv(vm) && Same(vm, e)
    ensures Same(Resolve(vm, pid, v), e)
  {
    hide Mappers, FirstFree, Consistent, Sound;
    var w := Resolve(vm, pid, v);
    forall p: nat, u: nat | Mapped(w.spaces, p, u)
      ensures SamePage(w, e, p, u)
    {
      assert Mapped(vm.spaces, p, u) && SamePage(vm, e, p, u);
      InMappers(vm.spaces, p, u);
      if HasFree(vm) {
        FreshFrame(vm.frames);
        UnusedUnmapped(vm, FirstFree(vm.frames.used));
      }
    }
  }

  lemma StoreKeeps(vm: Vm, pid: nat, v: nat, content: Page)
    requires VmInv(vm)
    ensures VmInv(Store(vm, pid, v, content))
  {
    hide Mappers, Consistent, Resolve;
    ResolveKeeps(vm, pid, v);
    var w, x := Resolve(vm, pid, v), Store(vm, pid, v, content);
    forall p: nat, u: nat | Mapped(x.spaces, p, u)
      ensures Sound(x, p, u)
    {
      assert Mapped(w.spaces, p, u) && Sound(w, p, u);
    }
  }

  /** A store never lacks the frame its copy needs. */
  predicate CanStore(vm: Vm, pid: nat, v: nat) {
    IsCow(vm, pid, v) && vm.frames.refs[vm.spaces[pid][v].frame] > 1 ==> HasFree(vm)
  }

  lemma ResolveWritable(vm: Vm, pid: nat, v: nat)
    requires VmInv(vm) && CanStore(vm, pid, v) && Mapped(vm.spaces, pid, v)
    ensures var w := Resolve(vm, pid, v);
            Mapped(w.spaces, pid, v) &&
                    (w.spaces[pid][v].writable <==> vm.spaces[pid][v].writable || vm.spaces[pid][v].cow)
  {
    hide Mappers, Consistent, FirstFree;
    assert Sound(vm, pid, v);
  }

  lemma StoreSame(vm: Vm, e: Eager, pid: nat, v: nat, content: Page)
    requires VmInv(vm) && Same(vm, e) && CanStore(vm, pid, v)
    ensures Same(Store(vm, pid, v, content), EagerStore(e, pid, v, content))
  {
    hide Mappers, Consistent, Resolve;
    ResolveKeeps(vm, pid, v);
    ResolveSame(vm, e, pid, v);
    var w, x, d := Resolve(vm, pid, v), Store(vm, pid, v, content), EagerStore(e, pid, v, content);
    if Mapped(w.spaces, pid, v) {
      assert Sound(w, pid, v) && SamePage(w, e, pid, v);
      assert Mapped(vm.spaces, pid, v);
      ResolveWritable(vm, pid, v);
    }
    forall p: nat, u: nat | Mapped(x.spaces, p, u)
      ensures SamePage(x, d, p, u)
    {
      assert Mapped(w.spaces, p, u) && SamePage(w, e, p, u);
      InMappers(w.spaces, p, u);
    }
  }

  // ---- runs ----

  datatype CowOp =
    | OpSpawn(pid: nat)
    | OpMap(pid: nat, v: nat, content: Page, writable: bool)
    | OpFork(parent: nat, child: nat)
    | OpStore(pid: nat, v: nat, content: Page)
    | OpDestroy(pid: nat)

  /** The step can be taken: the process exists or is new as required, and allocations succeed. */
  ghost predicate Enabled(vm: Vm, op: CowOp) {
    match op
    case OpSpawn(pid) => pid !in vm.spaces
    case OpMap(pid, _, _, _) => pid in vm.spaces && HasFree(vm)
    case OpFork(parent, child) => CanFork(vm, parent, child)
    case OpStore(pid, v, _) => CanStore(vm, pid, v)
    case OpDestroy(_) => true
  }

  function CowStep(vm: Vm, op: CowOp): Vm {
    match op
    case OpSpawn(pid) => Spawn(vm, pid)
    case OpMap(pid, v, content, writable) => MapFresh(vm, pid, v, content, writable)
    case OpFork(parent, child) => Fork(vm, parent, child)
    case OpStore(pid, v, content) => Store(vm, pid, v, content)
    case OpDestroy(pid) => Destroy(vm, pid)
  }

  function EagerStep(e: Eager, op: CowOp): Eager {
    match op
    case OpSpawn(pid) => e[pid := map[]]
    case OpMap(pid, v, content, writable) => EagerMap(e, pid, v, content, writable)
    case OpFork(parent, child) => EagerFork(e, parent, child)
    case OpStore(pid, v, content) => EagerStore(e, pid, v, content)
    case OpDestroy(pid) => e - {pid}
  }

  lemma StepRefines(vm: Vm, e: Eager, op: CowOp)
    requires VmInv(vm) && Same(vm, e) && Enabled(vm, op)
    ensures VmInv(CowStep(vm, op)) && Same(CowStep(vm, op), EagerStep(e, op))
  {
    hide VmInv, MapFresh, Fork, Store, EagerMap, EagerFork, EagerStore, CountsHaveRoom, FirstFree;
    match op {
      case OpSpawn(pid) => SpawnKeeps(vm, pid); SpawnSame(vm, e, pid);
      case OpMap(pid, v, content, writable) =>
        MapFreshKeeps(vm, pid, v, content, writable);
        MapFreshSame(vm, e, pid, v, content, writable);
      case OpFork(parent, child) => ForkKeeps(vm, parent, child); ForkSame(vm, e, parent, child);
      case OpStore(pid, v, content) => StoreKeeps(vm, pid, v, content); StoreSame(vm, e, pid, v, content);
      case OpDestroy(pid) => DestroyKeeps(vm, pid); DestroySame(vm, e, pid);
    }
  }

  lemma SpawnSame(vm: Vm, e: Eager, pid: nat)
    requires Same(vm, e) && pid !in vm.spaces
    ensures Same(Spawn(vm, pid), e[pid := map[]])
  {
    var w := Spawn(vm, pid);
    forall p: nat, u: nat | Mapped(w.spaces, p, u)
      ensures SamePage(w, e[pid := map[]], p, u)
    {
      assert Mapped(vm.spaces, p, u) && SamePage(vm, e, p, u);
    }
  }

  lemma DestroySame(vm: Vm, e: Eager, pid: nat)
    requires Same(vm, e)
    ensures Same(Destroy(vm, pid), e - {pid})
  {
    var w := Destroy(vm, pid);
    forall p: nat, u: nat | Mapped(w.spaces, p, u)
      ensures SamePage(w, e - {pid}, p, u)
    {
      assert Mapped(vm.spaces, p, u) && SamePage(vm, e, p, u);
    }
  }

  /** Both memories after a run; a step that cannot be taken is taken by neither. */
  ghost function CowRun(vm: Vm, e: Eager, ops: seq<CowOp>): (Vm, Eager)
    decreases |ops|
  {
    if ops == [] then (vm, e) else
    var (w, d) := CowRun(vm, e, ops[..|ops| - 1]);
    var op := ops[|ops| - 1];
    if Enabled(w, op) then (CowStep(w, op), EagerStep(d, op)) else (w, d)
  }

  lemma {:induction false} RunRefines(vm: Vm, e: Eager, ops: seq<CowOp>)
    requires VmInv(vm) && Same(vm, e)
    ensures var (w, d) := CowRun(vm, e, ops); VmInv(w) && Same(w, d)
    decreases |ops|
  {
    if ops != [] {
      hide VmInv, Same, Enabled, CowStep, EagerStep;
      RunRefines(vm, e, ops[..|ops| - 1]);
      var (w, d) := CowRun(vm, e, ops[..|ops| - 1]);
      var op := ops[|ops| - 1];
      if Enabled(w, op) {
        StepRefines(w, d, op);
      }
    }
  }

  datatype Loaded = Fault | Bytes(content: Page)

  /** What a user load sees. */
  function Load(vm: Vm, pid: nat, v: nat): Loaded {
    if Mapped(vm.spaces, pid, v) && vm.spaces[pid][v].frame < |vm.mem| then Bytes(vm.mem[vm.spaces[pid][v].frame])
    else Fault
  }

  function EagerLoad(e: Eager, pid: nat, v: nat): Loaded {
    if pid in e && v in e[pid] then Bytes(e[pid][v].content) else Fault
  }

  /**
   * Copy-on-write fork is eager fork: from a machine with no processes, after any run of process creation,
   * page mapping, fork, stores and teardown, every process loads from every page what it would load had
   * each fork copied every page, and a writable entry is its frame's only mapping.
   */
  lemma CowRefinesEager(frames: Frames, mem: seq<Page>, ops: seq<CowOp>, pid: nat, v: nat)
    requires Consistent(frames) && |mem| == |frames.refs|
    ensures var (w, d) := CowRun(Vm(frames, mem, map[]), map[], ops);
            && Load(w, pid, v) == EagerLoad(d, pid, v)
            && (Mapped(w.spaces, pid, v) && w.spaces[pid][v].writable ==>
                  Mappers(w.spaces, w.spaces[pid][v].frame) == {(pid, v)})
  {
    hide Mappers, Consistent, Enabled, CowStep, EagerStep;
    RunRefines(Vm(frames, mem, map[]), map[], ops);
    var (w, d) := CowRun(Vm(frames, mem, map[]), map[], ops);
    if Mapped(w.spaces, pid, v) {
      assert Sound(w, pid, v) && SamePage(w, d, pid, v);
    }
  }
}
