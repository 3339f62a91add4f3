// vmm_clone_address_space on the page tables themselves: what the parent and the child translate afterwards, child
// tables that cannot be allocated included (src/kernel/vmm.c). The reference counts are those of CowKernel.
module CowClone {
  import opened Basics
  import opened Pmm
  import opened PageTable
  import opened AddressSpace
  import opened CowTables
  import Cow

  /** A leaf as the clone leaves it: a writable one is write-protected and marked copy-on-write. */
  function Guard(e: Entry): Entry {
    if !e.flags.writable then e
    else
      var o := e.flags.other;
      Entry(e.frame, e.flags.(writable := false, other := if o / PAGE_COW % 2 == 1 then o else o + PAGE_COW))
  }

  function Guarded(o: Option<Entry>): Option<Entry> { if o.Some? then Some(Guard(o.value)) else None }

  lemma GuardIsShared(e: Entry)
    ensures PteOf(Guard(e)) == PteOf(e).Shared() && Guard(e).flags.present == e.flags.present
    ensures Guard(e).frame == e.frame && Guard(e).flags.user == e.flags.user
    ensures Guard(e).flags.other % PAGE_COW == e.flags.other % PAGE_COW
    ensures Guard(e).flags.other / PAGE_COW / 2 == e.flags.other / PAGE_COW / 2
  {
    var o := e.flags.other;
    assert (o + PAGE_COW) / PAGE_COW == o / PAGE_COW + 1;
  }

  /** The page is mapped in the parent through tables open to user mode. */
  predicate Clonable(t: Tables, p: nat, v: nat) { Flat(t, p, v).Some? && UserPath(t, p, TOP, v) }

  /** One leaf of the clone, and whether the child got the page; map_in_pml4 does not say when it fails. */
  function CloneStep(s: Space, p: nat, c: nat, v: nat): (Space, bool) {
    if !Clonable(s.tables, p, v) then (s, false)
    else
      var e := Flat(s.tables, p, v).value;
      var s1 := if e.flags.writable then s.(tables := InPlace(s.tables, p, TOP, v, Guard(e))) else s;
      MapAt(s1, c, TOP, v, Guard(e))
  }

  lemma Mirror(s: Space, p: nat, c: nat)
    requires Apart(s, p, c)
    ensures Apart(s, c, p) && p != 0
  {
    hide Reach, Under, Tree;
  }

  /** A user page of either tree is mapped by its own number. */
  lemma MapsOne(s: Space, f: nat, v: nat, leaf: Entry, q: nat)
    requires Owned(s, f, TOP) && UserPage(v) && UserPage(q)
    ensures var (d, ok) := MapAt(s, f, TOP, v, leaf);
            Flat(d.tables, f, q) == if ok && q == v then (if leaf.flags.present then Some(leaf) else None)
                                    else Flat(s.tables, f, q)
  {
    hide MapAt, Owned, Lookup, SamePath;
    SlotOf(v);
    SlotOf(q);
    MapAtKeeps(s, f, TOP, v, leaf, q);
    SamePathSamePage(v, q);
  }

  /** Write-protecting the parent's leaf. */
  lemma GuardStep(s: Space, p: nat, c: nat, v: nat, q: nat)
    requires Apart(s, p, c) && UserPage(v) && UserPage(q) && Clonable(s.tables, p, v)
    ensures var e := Flat(s.tables, p, v).value;
            var d := if e.flags.writable then s.(tables := InPlace(s.tables, p, TOP, v, Guard(e))) else s;
            && Apart(d, p, c) && Flat(d.tables, c, q) == Flat(s.tables, c, q)
            && (UserPath(d.tables, p, TOP, q) <==> UserPath(s.tables, p, TOP, q))
            && Flat(d.tables, p, q) == if q == v then Guarded(Flat(s.tables, p, v)) else Flat(s.tables, p, q)
  {
    var e := Flat(s.tables, p, v).value;
    Present(s.tables, p, TOP, v);
    GuardIsShared(e);
    Mirror(s, p, c);
    ParentTree(s, p, c);
    hide Apart, Owned, UserPath, MapAt, InPlace, Lookup, PteOf;
    if e.flags.writable {
      InPlaceIsMap(s, p, TOP, v, Guard(e));
      MapsOne(s, p, v, Guard(e), q);
      OtherKept(s, c, p, v, Guard(e), q);
      Mirror(MapAt(s, p, TOP, v, Guard(e)).0, c, p);
      PathStays(s.tables, p, TOP, v, Guard(e), q);
    }
  }

  lemma ParentTree(s: Space, p: nat, c: nat)
    requires Apart(s, p, c)
    ensures Owned(s, p, TOP) && Owned(s, c, TOP) && Tree(s.tables, p, TOP)
  {}

  lemma {:induction false} Present(t: Tables, f: nat, level: nat, v: nat)
    requires Lookup(t, f, level, v).Some?
    ensures Lookup(t, f, level, v).value.flags.present
    decreases level
  {
    hide Digit;
    if level > 0 {
      Present(t, t[f][Digit(v, level)].frame, level - 1, v);
    }
  }

  /** One step: the parent's page is guarded, the child's is there iff its tables were, and no other page changes. */
  lemma StepExactly(s: Space, p: nat, c: nat, v: nat, q: nat)
    requires Apart(s, p, c) && UserPage(v) && UserPage(q)
    ensures var (d, ok) := CloneStep(s, p, c, v);
            && Apart(d, p, c) && (UserPath(d.tables, p, TOP, q) <==> UserPath(s.tables, p, TOP, q))
            && Flat(d.tables, p, q) ==
               (if q == v && Clonable(s.tables, p, v) then Guarded(Flat(s.tables, p, v)) else Flat(s.tables, p, q))
            && Flat(d.tables, c, q) == (if q == v && ok then Guarded(Flat(s.tables, p, v)) else Flat(s.tables, c, q))
            && (ok ==> Clonable(s.tables, p, v))
  {
    hide Apart, Owned, UserPath, MapAt, InPlace, Lookup, Guard, PteOf;
    if Clonable(s.tables, p, v) {
      var e := Flat(s.tables, p, v).value;
      GuardStep(s, p, c, v, q);
      var d := if e.flags.writable then s.(tables := InPlace(s.tables, p, TOP, v, Guard(e))) else s;
      Present(s.tables, p, TOP, v);
      GuardIsShared(e);
      ParentTree(d, p, c);
      MapsOne(d, c, v, Guard(e), q);
      OtherKept(d, p, c, v, Guard(e), q);
      OtherPath(d, p, c, v, Guard(e), q);
    }
  }

  /** Mapping in the child's tree leaves the way to the parent's pages alone. */
  lemma OtherPath(s: Space, p: nat, c: nat, v: nat, leaf: Entry, q: nat)
    requires Apart(s, p, c) && UserPage(v)
    ensures UserPath(MapAt(s, c, TOP, v, leaf).0.tables, p, TOP, q) <==> UserPath(s.tables, p, TOP, q)
  {
    var d, i := MapAt(s, c, TOP, v, leaf).0, Digit(v, TOP);
    SlotOf(v);
    MapConfined(s, c, v, leaf);
    TreeOf(s, p, TOP);
    ReachStored(s.tables, p, TOP);
    hide Tree, Reach, Under, MapAt, UserPath, Digit, Owned;
    assert forall g :: g in Reach(s.tables, p, TOP) ==> g in s.tables && !Unused(s, g) && g != c;
    PathLocal(s.tables, d.tables, p, TOP, q);
  }

  // ---- the whole clone ----

  /** The tables once the user pages below hi have been gone through. */
  function CloneTo(s: Space, p: nat, c: nat, hi: nat): Space {
    if hi <= Cow.FIRST_PAGE then s else CloneStep(CloneTo(s, p, c, hi - 1), p, c, hi - 1).0
  }

  /** The child got page v: every table on the way could be had. */
  predicate Got(s: Space, p: nat, c: nat, v: nat) { CloneStep(CloneTo(s, p, c, v), p, c, v).1 }

  lemma {:induction false} CloneExactly(s: Space, p: nat, c: nat, hi: nat, q: nat)
    requires Apart(s, p, c) && hi <= Cow.LAST_PAGE && UserPage(q)
    ensures var d := CloneTo(s, p, c, hi);
            && Apart(d, p, c) && (UserPath(d.tables, p, TOP, q) <==> UserPath(s.tables, p, TOP, q))
            && Flat(d.tables, p, q) ==
               (if q < hi && Clonable(s.tables, p, q) then Guarded(Flat(s.tables, p, q)) else Flat(s.tables, p, q))
            && Flat(d.tables, c, q) ==
               (if q < hi && Got(s, p, c, q) then Guarded(Flat(s.tables, p, q)) else Flat(s.tables, c, q))
            && (q <= hi && Got(s, p, c, q) ==> Clonable(s.tables, p, q))
    decreases hi
  {
    hide Apart, UserPath, Guard, CloneStep, Lookup;
    if hi > Cow.FIRST_PAGE {
      CloneExactly(s, p, c, hi - 1, q);
      CloneExactly(s, p, c, hi - 1, hi - 1);
      StepExactly(CloneTo(s, p, c, hi - 1), p, c, hi - 1, q);
    }
    if q == hi {
      StepExactly(CloneTo(s, p, c, hi), p, c, q, q);
    }
  }

  /** Every user page of the parent is mapped through tables open to user mode. */
  ghost predicate AllClonable(t: Tables, p: nat) {
    forall v :: UserPage(v) && Flat(t, p, v).Some? ==> UserPath(t, p, TOP, v)
  }

  lemma SpaceAt(t: Tables, f: nat, v: nat)
    ensures v in SpaceOf(t, f) <==> UserPage(v) && Flat(t, f, v).Some?
    ensures v in SpaceOf(t, f) ==> SpaceOf(t, f)[v] == PteOf(Flat(t, f, v).value)
  {}

  /** Page by page: the parent's entry is the shared one if it can be cloned; so is the child's if it got the page. */
  lemma ClonedAt(s: Space, p: nat, c: nat, v: nat)
    requires Apart(s, p, c) && SpaceOf(s.tables, c) == map[] && UserPage(v)
    ensures var d, all := CloneTo(s, p, c, Cow.LAST_PAGE), SpaceOf(s.tables, p);
            && (v in SpaceOf(d.tables, p) <==> v in all)
            && (v in all ==>
                  SpaceOf(d.tables, p)[v] == if UserPath(s.tables, p, TOP, v) then all[v].Shared() else all[v])
            && (v in SpaceOf(d.tables, c) <==> Got(s, p, c, v))
            && (Got(s, p, c, v) ==>
                  v in all && UserPath(s.tables, p, TOP, v) && SpaceOf(d.tables, c)[v] == all[v].Shared())
  {
    hide Apart, UserPath, CloneTo, Got, Lookup, SpaceOf, PteOf, Guard;
    var d := CloneTo(s, p, c, Cow.LAST_PAGE);
    CloneExactly(s, p, c, Cow.LAST_PAGE, v);
    SpaceAt(s.tables, p, v);
    SpaceAt(s.tables, c, v);
    SpaceAt(d.tables, p, v);
    SpaceAt(d.tables, c, v);
    if Flat(s.tables, p, v).Some? {
      GuardIsShared(Flat(s.tables, p, v).value);
    }
  }

  /** With no frame left and the child's root empty at the page's slot the page is not mapped, and the clone goes on. */
  lemma NoFrameNoPage(s: Space, p: nat, c: nat, v: nat)
    requires Apart(s, p, c) && Clonable(s.tables, p, v) && FirstFree(s.frames.used) == |s.frames.used|
    requires c in s.tables && |s.tables[c]| == ENTRIES && !s.tables[c][Digit(v, TOP)].Live()
    ensures !CloneStep(s, p, c, v).1
  {
    ParentTree(s, p, c);
    hide FirstFree, Lookup, UserPath, Digit, Apart, Tree, InPlace, Guard;
    var e := Flat(s.tables, p, v).value;
    InPlaceWithin(s.tables, p, TOP, v, Guard(e));
    NotOfParent(s, p, c);
    var s1 := if e.flags.writable then s.(tables := InPlace(s.tables, p, TOP, v, Guard(e))) else s;
    assert s1.tables[c] == s.tables[c];
    MapAtStep(s1, c, TOP, v, Guard(e));
  }

  lemma NotOfParent(s: Space, p: nat, c: nat)
    requires Apart(s, p, c)
    ensures c !in Reach(s.tables, p, TOP)
  {}

  // ---- the child's root ----

  /** A root with the parent's kernel slots and empty user slots. */
  function ChildRoot(t: Table): (r: Table)
    requires |t| == ENTRIES
    ensures |r| == ENTRIES && forall i :: 0 <= i < ENTRIES ==> r[i] == if UserSlot(i) then NONE else t[i]
  {
    seq(ENTRIES, i requires 0 <= i < ENTRIES => if UserSlot(i) then NONE else t[i])
  }

  /** The tables when the clone's loop begins: frame c is taken for the child's root. */
  function CloneStart(s: Space, p: nat, c: nat): Space
    requires p in s.tables && |s.tables[p]| == ENTRIES && c < |s.frames.used| && c < |s.frames.refs|
  {
    Space(s.tables[c := ChildRoot(s.tables[p])], Take(s.frames, c))
  }

  /** What lies below the child's slots: the parent's tables below the kernel's, nothing below the user's. */
  lemma ChildUnder(s: Space, p: nat, c: nat, i: nat)
    requires p in s.tables && c in s.tables && |s.tables[p]| == ENTRIES && s.tables[c] == ChildRoot(s.tables[p])
    requires i < ENTRIES
    ensures Under(s.tables, c, TOP, i) == if UserSlot(i) then {} else Under(s.tables, p, TOP, i)
  {
    hide Reach;
  }

  lemma ChildTreeOk(s: Space, p: nat, c: nat)
    requires Owned(s, p, TOP) && c in s.tables && s.tables[c] == ChildRoot(s.tables[p]) && c !in Reach(s.tables, p, TOP)
    ensures Tree(s.tables, c, TOP)
  {
    OwnedRoot(s, p, TOP);
    forall i | 0 <= i < ENTRIES
      ensures Under(s.tables, c, TOP, i) == if UserSlot(i) then {} else Under(s.tables, p, TOP, i)
      ensures c !in Under(s.tables, c, TOP, i)
      ensures s.tables[c][i].Live() ==> Tree(s.tables, s.tables[c][i].frame, TOP - 1)
    {
      ChildUnder(s, p, c, i);
      RootFacts(s.tables, p, TOP, i);
      if s.tables[c][i].Live() {
        ChildTree(s.tables, p, TOP, i);
      }
    }
    forall i, j | 0 <= i < j < ENTRIES
      ensures Under(s.tables, c, TOP, i) !! Under(s.tables, c, TOP, j)
    {
      SlotsApart(s, p, i, j);
    }
    hide Reach, Under;
  }

  /** A table of the child's tree is its root or one of the parent's below a kernel slot. */
  lemma ChildMember(s: Space, p: nat, c: nat, g: nat) returns (i: nat)
    requires Owned(s, p, TOP) && c in s.tables && s.tables[c] == ChildRoot(s.tables[p]) && g in Reach(s.tables, c, TOP)
    ensures i < ENTRIES && (g != c ==> !UserSlot(i) && g in Under(s.tables, p, TOP, i))
    ensures g != c ==> g in Reach(s.tables, p, TOP) && g != p
  {
    OwnedRoot(s, p, TOP);
    i := 0;
    if g != c {
      i :| 0 <= i < ENTRIES && g in Under(s.tables, c, TOP, i);
      hide Reach, Under, Tree;
      ChildUnder(s, p, c, i);
      OwnedFacts(s, p, i);
    }
  }

  lemma OwnedFacts(s: Space, p: nat, i: nat)
    requires Owned(s, p, TOP) && i < ENTRIES
    ensures Under(s.tables, p, TOP, i) <= Reach(s.tables, p, TOP) && p !in Under(s.tables, p, TOP, i)
  {
    RootFacts(s.tables, p, TOP, i);
  }

  lemma ChildReach(s: Space, p: nat, c: nat)
    requires Owned(s, p, TOP) && c in s.tables && s.tables[c] == ChildRoot(s.tables[p])
    ensures Reach(s.tables, c, TOP) <= {c} + Reach(s.tables, p, TOP)
    ensures p != c ==> p !in Reach(s.tables, c, TOP)
    ensures forall i :: UserSlot(i) && c !in Under(s.tables, p, TOP, i) ==>
                          Under(s.tables, p, TOP, i) !! Reach(s.tables, c, TOP)
  {
    hide Reach, Under, Tree, Owned;
    forall g | g in Reach(s.tables, c, TOP)
      ensures g in {c} + Reach(s.tables, p, TOP) && (g == p ==> p == c)
    {
      var _ := ChildMember(s, p, c, g);
    }
    forall i, g | UserSlot(i) && c !in Under(s.tables, p, TOP, i) && g in Reach(s.tables, c, TOP)
      ensures g !in Under(s.tables, p, TOP, i)
    {
      var j := ChildMember(s, p, c, g);
      SlotsApart(s, p, i, j);
    }
  }

  lemma NoneBelow(t: Tables, c: nat, v: nat)
    requires c in t && |t[c]| == ENTRIES && t[c][Digit(v, TOP)] == NONE
    ensures Flat(t, c, v) == None
  {
    hide Digit;
  }

  /** The loop begins with two trees apart and an empty child. */
  lemma StartApart(s: Space, p: nat)
    requires Owned(s, p, TOP) && FirstFree(s.frames.used) < |s.frames.used|
    ensures var c := FirstFree(s.frames.used);
            && p in s.tables && |s.tables[p]| == ENTRIES && c < |s.frames.refs|
            && var d := CloneStart(s, p, c);
            Apart(d, p, c) && SpaceOf(d.tables, c) == map[]
  {
    var c := FirstFree(s.frames.used);
    OwnedRoot(s, p, TOP);
    FoundFrame(s, p, TOP);
    OwnedFrames(s, p);
    TakeKeeps(s.frames, c);
    var d := CloneStart(s, p, c);
    assert Confined(s, d, {});
    hide Reach, Under, Tree, FirstFree, Lookup;
    TreeKept(s, d, p, {}, 0);
    ChildTreeOk(d, p, c);
    ChildReach(d, p, c);
    StartParts(d, p, c);
    StartEmpty(d.tables, p, c);
  }

  lemma StartEmpty(t: Tables, p: nat, c: nat)
    requires p in t && |t[p]| == ENTRIES && c in t && t[c] == ChildRoot(t[p])
    ensures SpaceOf(t, c) == map[]
  {
    hide Lookup;
    forall v | UserPage(v)
      ensures Flat(t, c, v) == None
    {
      SlotOf(v);
      NoneBelow(t, c, v);
    }
  }

  lemma StartParts(d: Space, p: nat, c: nat)
    requires Owned(d, p, TOP) && c in d.tables && d.tables[c] == ChildRoot(d.tables[p]) && Tree(d.tables, c, TOP)
    requires c != 0 && c < |d.frames.used| && d.frames.used[c] && c !in Reach(d.tables, p, TOP)
    requires Reach(d.tables, c, TOP) <= {c} + Reach(d.tables, p, TOP) && p !in Reach(d.tables, c, TOP)
    requires forall i :: UserSlot(i) && c !in Under(d.tables, p, TOP, i) ==>
                           Under(d.tables, p, TOP, i) !! Reach(d.tables, c, TOP)
    ensures Apart(d, p, c)
  {
    OwnedRoot(d, p, TOP);
    forall i | UserSlot(i)
      ensures Under(d.tables, p, TOP, i) !! Reach(d.tables, c, TOP)
      ensures Under(d.tables, c, TOP, i) !! Reach(d.tables, p, TOP)
    {
      ChildUnder(d, p, c, i);
      RootFacts(d.tables, p, TOP, i);
    }
    hide Reach, Under, Tree;
  }
}
