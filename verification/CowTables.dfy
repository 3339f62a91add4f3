// The flat address space of the copy-on-write model, read off the page tables (src/kernel/vmm.c).
module CowTables {
  import opened Basics
  import opened Pmm
  import opened PageTable
  import opened AddressSpace
  import Cow

  const PAGE_COW: nat := 0x200

  /** A leaf entry as the copy-on-write model sees it. */
  function PteOf(e: Entry): Cow.Pte { Cow.Pte(e.frame, e.flags.writable, e.flags.other / PAGE_COW % 2 == 1) }

  predicate UserPage(v: nat) { Cow.FIRST_PAGE <= v < Cow.LAST_PAGE }

  /** The space a tree of tables translates by, in the user slots. */
  function SpaceOf(t: Tables, root: nat): Cow.Space {
    map v: nat | Cow.FIRST_PAGE <= v < Cow.LAST_PAGE && Flat(t, root, v).Some? :: PteOf(Flat(t, root, v).value)
  }

  /** What mapping one page makes of a space: nothing if it fails. */
  function WithPage(s: Cow.Space, v: nat, leaf: Entry, ok: bool): Cow.Space {
    if !ok || !UserPage(v) then s else if leaf.flags.present then s[v := PteOf(leaf)] else s - {v}
  }

  /** map_in_pml4 on the tables is the update of one page of the space, whichever tables it had to make. */
  lemma MapIsUpdate(s: PageTable.Space, root: nat, vaddr: nat, leaf: Entry)
    requires Owned(s, root, TOP)
    ensures var (d, ok) := MapAt(s, root, TOP, PageOf(vaddr), leaf);
            && Owned(d, root, TOP)
            && SpaceOf(d.tables, root) == WithPage(SpaceOf(s.tables, root), PageOf(vaddr), leaf, ok)
  {
    hide MapAt, Owned, Lookup;
    var (d, ok) := MapAt(s, root, TOP, PageOf(vaddr), leaf);
    MapRefinesFlat(s, root, vaddr, leaf, 0);
    forall v: nat | UserPage(v)
      ensures Flat(d.tables, root, v) ==
              if ok && v == PageOf(vaddr) then (if leaf.flags.present then Some(leaf) else None)
              else Flat(s.tables, root, v)
    {
      MapRefinesFlat(s, root, vaddr, leaf, v);
    }
    assert SpaceOf(d.tables, root) == WithPage(SpaceOf(s.tables, root), PageOf(vaddr), leaf, ok);
  }

  // ---- two trees that share the kernel's tables ----

  /** Frames g of s hold in d what they held in s, save those in `touched` and those that were unused. */
  ghost predicate Confined(s: PageTable.Space, d: PageTable.Space, touched: set<nat>) {
    && |d.frames.used| == |s.frames.used|
    && (forall g :: 0 <= g < |s.frames.used| && s.frames.used[g] ==> d.frames.used[g])
    && forall g :: g in s.tables && g !in touched && !Unused(s, g) ==> g in d.tables && d.tables[g] == s.tables[g]
  }

  /** What lies below entry i of table f in d lay there in s or was unused. */
  ghost predicate Below(s: PageTable.Space, d: PageTable.Space, f: nat, level: nat, i: nat) {
    forall g :: g in Under(d.tables, f, level, i) ==> g in Under(s.tables, f, level, i) || Unused(s, g)
  }

  lemma NotLiveBelow(s: PageTable.Space, d: PageTable.Space, f: nat, level: nat, i: nat)
    requires f in d.tables && i < |d.tables[f]| && !d.tables[f][i].Live()
    ensures Below(s, d, f, level, i)
  {}

  lemma NewBelow(s: PageTable.Space, f: nat, level: nat, i: nat, user: bool)
    requires Owned(s, f, level) && level > 0 && i < ENTRIES && !s.tables[f][i].Live()
    requires FirstFree(s.frames.used) < |s.frames.used|
    ensures var (d, n) := Ensure(s, f, i, user);
            Confined(s, d, {f}) && Below(s, d, f, level, i) && f in d.tables && f != n && Unused(s, n) &&
            d.tables[f] == s.tables[f][i := Entry(n, TableFlags(user))]
  {
    hide FirstFree;
    var (d, n) := Ensure(s, f, i, user);
    FoundFrame(s, f, level);
    PutTwice(s.tables, f, i, Cleaned(s.tables[f][i]), Entry(n, TableFlags(user)));
    hide Tree, Owned;
    EmptyLeads(d.tables, n, level - 1, 0);
  }

  lemma CopyConfined(s: PageTable.Space, f: nat, level: nat, i: nat)
    requires Owned(s, f, level) && level > 0 && i < ENTRIES && s.tables[f][i].Live() && !s.tables[f][i].flags.user
    requires FirstFree(s.frames.used) < |s.frames.used|
    ensures var (d, n) := Ensure(s, f, i, true);
            Confined(s, d, {f}) && f in d.tables && f != n && Unused(s, n) &&
            d.tables[f] == s.tables[f][i := Entry(n, TableFlags(true))]
  {
    OwnedRoot(s, f, level);
    hide FirstFree, Ensure, Reach, Tree, Owned, Consistent;
    CopyResult(s, f, level, i);
    FoundFrame(s, f, level);
  }

  lemma CopyBelow(s: PageTable.Space, f: nat, level: nat, i: nat)
    requires Owned(s, f, level) && level > 0 && i < ENTRIES && s.tables[f][i].Live() && !s.tables[f][i].flags.user
    requires FirstFree(s.frames.used) < |s.frames.used|
    ensures Below(s, Ensure(s, f, i, true).0, f, level, i)
  {
    OwnedRoot(s, f, level);
    CopyConfined(s, f, level, i);
    var (d, n) := Ensure(s, f, i, true);
    var t, a := s.tables, s.tables[f][i].frame;
    hide FirstFree, Ensure, Reach, Tree, Owned, Consistent, Confined;
    CopyResult(s, f, level, i);
    FoundFrame(s, f, level);
    ChildOwned(s, f, level, i);
    ChildStored(s, f, level, i);
    assert Under(d.tables, f, level, i) == Reach(d.tables, n, level - 1);
    hide Under;
    CopyTable(t, d.tables, a, n, level - 1, 0);
  }

  /** ensure_next_table touches its own table and unused frames, and only entry i of it. */
  lemma EnsureConfined(s: PageTable.Space, f: nat, level: nat, i: nat, user: bool)
    requires Owned(s, f, level) && level > 0 && i < ENTRIES
    ensures var (d, n) := Ensure(s, f, i, user);
            && Confined(s, d, {f}) && Below(s, d, f, level, i)
            && f in d.tables && |d.tables[f]| == ENTRIES
            && forall j :: 0 <= j < ENTRIES && j != i ==> d.tables[f][j] == s.tables[f][j]
  {
    OwnedRoot(s, f, level);
    hide FirstFree, Under, Reach, Owned;
    var e := s.tables[f][i];
    if e.Live() && (e.flags.user || !user) {
      SameEntry(s, f, i);
    } else if FirstFree(s.frames.used) >= |s.frames.used| {
      if e.Live() {
        SameEntry(s, f, i);
      } else {
        NotLiveBelow(s, Ensure(s, f, i, user).0, f, level, i);
      }
    } else if e.Live() {
      CopyConfined(s, f, level, i);
      CopyBelow(s, f, level, i);
    } else {
      NewBelow(s, f, level, i, user);
    }
  }

  /** map_in_pml4 from the top touches the root, what lies below the page's slot, and unused frames. */
  lemma MapConfined(s: PageTable.Space, f: nat, page: nat, leaf: Entry)
    requires Owned(s, f, TOP)
    ensures var d, i := MapAt(s, f, TOP, page, leaf).0, Digit(page, TOP);
            && Confined(s, d, {f} + Under(s.tables, f, TOP, i)) && Below(s, d, f, TOP, i)
            && f in d.tables && |d.tables[f]| == ENTRIES
            && forall j :: 0 <= j < ENTRIES && j != i ==> d.tables[f][j] == s.tables[f][j]
  {
    var i := Digit(page, TOP);
    MapAtStep(s, f, TOP, page, leaf);
    EnsureConfined(s, f, TOP, i, leaf.flags.user);
    EnsureKeeps(s, f, TOP, i, leaf.flags.user, 0);
    hide MapAt, Ensure, Owned, Grown, Reach, Under, Digit, Lookup, Tree;
    var (e, next) := Ensure(s, f, i, leaf.flags.user);
    if next != 0 {
      ChildOwned(e, f, TOP, i);
      MapAtKeeps(e, next, TOP - 1, page, leaf, 0);
      MapBelow(s, e, MapAt(e, next, TOP - 1, page, leaf).0, f, i, next);
    }
  }

  lemma MapBelow(s: PageTable.Space, e: PageTable.Space, d: PageTable.Space, f: nat, i: nat, next: nat)
    requires Owned(e, f, TOP) && i < ENTRIES && e.tables[f][i].Live() && e.tables[f][i].frame == next
    requires Confined(s, e, {f}) && Below(s, e, f, TOP, i)
    requires Owned(d, next, TOP - 1) && Grown(e, d, next, TOP - 1)
    ensures Confined(s, d, {f} + Under(s.tables, f, TOP, i)) && Below(s, d, f, TOP, i)
    ensures f in d.tables && d.tables[f] == e.tables[f]
  {
    OwnedRoot(e, f, TOP);
    ChildOwned(e, f, TOP, i);
    DescendedReplaced(e, d, f, TOP, i);
    hide Reach, Under, Tree, Replaced, Owned, Confined, Below, Grown;
    ConfinedTwice(s, e, d, f, i, next);
    BelowTwice(s, e, d, f, i, next);
  }

  lemma ConfinedTwice(s: PageTable.Space, e: PageTable.Space, d: PageTable.Space, f: nat, i: nat, next: nat)
    requires Confined(s, e, {f}) && Below(s, e, f, TOP, i) && Grown(e, d, next, TOP - 1)
    requires Under(e.tables, f, TOP, i) == Reach(e.tables, next, TOP - 1)
    ensures Confined(s, d, {f} + Under(s.tables, f, TOP, i))
  {
    hide Reach, Under;
    forall g | g in s.tables && g !in {f} + Under(s.tables, f, TOP, i) && !Unused(s, g)
      ensures g in d.tables && d.tables[g] == s.tables[g]
    {
      assert g in e.tables && g !in Under(e.tables, f, TOP, i) && !Unused(e, g);
    }
  }

  lemma BelowTwice(s: PageTable.Space, e: PageTable.Space, d: PageTable.Space, f: nat, i: nat, next: nat)
    requires Confined(s, e, {f}) && Below(s, e, f, TOP, i) && Grown(e, d, next, TOP - 1)
    requires Under(e.tables, f, TOP, i) == Reach(e.tables, next, TOP - 1)
    requires Under(d.tables, f, TOP, i) == Reach(d.tables, next, TOP - 1)
    ensures Below(s, d, f, TOP, i)
  {
    hide Reach, Under;
  }

  // ---- the clone's two trees ----

  /** Slots 1 to 255 of a root are a process's own. */
  predicate UserSlot(i: nat) { 1 <= i < 256 }

  /** Two trees that may share tables below their kernel slots but none below their user slots. */
  ghost predicate Apart(s: PageTable.Space, p: nat, c: nat) {
    && Owned(s, p, TOP) && Owned(s, c, TOP)
    && p !in Reach(s.tables, c, TOP) && c !in Reach(s.tables, p, TOP)
    && forall i :: UserSlot(i) ==>
         Under(s.tables, p, TOP, i) !! Reach(s.tables, c, TOP) && Under(s.tables, c, TOP, i) !! Reach(s.tables, p, TOP)
  }

  lemma SlotOf(v: nat)
    requires UserPage(v)
    ensures UserSlot(Digit(v, TOP)) && v < PAGES
  {
    DigitStep(v, 3);
    DigitStep(v / 512, 2);
    DigitStep(v / 512 / 512, 1);
    DigitStep(v / 512 / 512 / 512, 0);
    hide Digit;
  }

  /** The slot of a tree keeps its tables when none of them is touched. */
  lemma SlotKept(s: PageTable.Space, d: PageTable.Space, f: nat, j: nat, touched: set<nat>)
    requires Owned(s, f, TOP) && j < ENTRIES && Confined(s, d, touched) && touched !! Under(s.tables, f, TOP, j)
    requires f in d.tables && |d.tables[f]| == ENTRIES && d.tables[f][j] == s.tables[f][j]
    ensures Under(d.tables, f, TOP, j) == Under(s.tables, f, TOP, j)
  {
    OwnedRoot(s, f, TOP);
    if s.tables[f][j].Live() {
      var g := s.tables[f][j].frame;
      ChildOwned(s, f, TOP, j);
      ReachStored(s.tables, g, TOP - 1);
      TreeOf(s, g, TOP - 1);
      hide Reach, Tree, Owned;
      assert forall x :: x in Reach(s.tables, g, TOP - 1) ==> x in s.tables && x !in touched && !Unused(s, x);
      Local(s.tables, d.tables, g, TOP - 1, 0);
    }
  }

  lemma TreeOf(s: PageTable.Space, f: nat, level: nat)
    requires Owned(s, f, level)
    ensures Tree(s.tables, f, level) && forall g :: g in Reach(s.tables, f, level) ==> !Unused(s, g)
  {}

  /** A tree none of whose tables is touched translates as before and is still owned. */
  lemma TreeKept(s: PageTable.Space, d: PageTable.Space, f: nat, touched: set<nat>, q: nat)
    requires Owned(s, f, TOP) && Confined(s, d, touched) && touched !! Reach(s.tables, f, TOP)
    requires Consistent(d.frames) && d.frames.reserved > 0
    ensures Owned(d, f, TOP) && Reach(d.tables, f, TOP) == Reach(s.tables, f, TOP)
    ensures Lookup(d.tables, f, TOP, q) == Lookup(s.tables, f, TOP, q)
    ensures f in d.tables && f in s.tables && d.tables[f] == s.tables[f]
  {
    TreeOf(s, f, TOP);
    ReachStored(s.tables, f, TOP);
    hide Tree, Reach;
    assert forall x :: x in Reach(s.tables, f, TOP) ==> x in s.tables && x !in touched && !Unused(s, x);
    Local(s.tables, d.tables, f, TOP, q);
  }

  /** Mapping a user page in one tree leaves every translation of the other alone and keeps the two apart. */
  lemma OtherKept(s: PageTable.Space, p: nat, c: nat, v: nat, leaf: Entry, q: nat)
    requires Apart(s, p, c) && UserPage(v)
    ensures var d := MapAt(s, c, TOP, v, leaf).0;
            Apart(d, p, c) && Lookup(d.tables, p, TOP, q) == Lookup(s.tables, p, TOP, q)
  {
    var d, i := MapAt(s, c, TOP, v, leaf).0, Digit(v, TOP);
    SlotOf(v);
    MapConfined(s, c, v, leaf);
    MapAtKeeps(s, c, TOP, v, leaf, 0);
    hide MapAt, Digit, Reach, Under, Tree, Lookup, Confined;
    var touched := {c} + Under(s.tables, c, TOP, i);
    OwnedFrames(d, c);
    TreeKept(s, d, p, touched, q);
    forall j | UserSlot(j)
      ensures Under(d.tables, p, TOP, j) !! Reach(d.tables, c, TOP)
      ensures Under(d.tables, c, TOP, j) !! Reach(d.tables, p, TOP)
    {
      SlotApart(s, d, p, c, i, j);
    }
    TreeOf(s, p, TOP);
    InReach(s.tables, p);
  }

  lemma InReach(t: Tables, f: nat)
    ensures f in Reach(t, f, TOP)
  {}

  lemma OwnedFrames(s: PageTable.Space, f: nat)
    requires Owned(s, f, TOP)
    ensures Consistent(s.frames) && s.frames.reserved > 0
  {}

  lemma SlotApart(s: PageTable.Space, d: PageTable.Space, p: nat, c: nat, i: nat, j: nat)
    requires Apart(s, p, c) && UserSlot(i) && UserSlot(j)
    requires Confined(s, d, {c} + Under(s.tables, c, TOP, i)) && Below(s, d, c, TOP, i) && Grown(s, d, c, TOP)
    requires c in d.tables && |d.tables[c]| == ENTRIES
    requires j != i ==> d.tables[c][j] == s.tables[c][j]
    requires p in d.tables && d.tables[p] == s.tables[p]
    requires Reach(d.tables, p, TOP) == Reach(s.tables, p, TOP)
    ensures Under(d.tables, p, TOP, j) !! Reach(d.tables, c, TOP)
    ensures Under(d.tables, c, TOP, j) !! Reach(d.tables, p, TOP)
  {
    var touched := {c} + Under(s.tables, c, TOP, i);
    RootFacts(s.tables, p, TOP, j);
    RootFacts(s.tables, c, TOP, j);
    TreeOf(s, p, TOP);
    OwnedRoot(s, p, TOP);
    InReach(s.tables, c);
    InReach(s.tables, p);
    RootFacts(s.tables, c, TOP, i);
    SlotsApart(s, c, i, j);
    hide Reach, Under, Tree, Owned, Confined;
    SlotKept(s, d, p, j, touched);
    if j != i {
      SlotKept(s, d, c, j, touched);
    }
  }

  lemma SlotsApart(s: PageTable.Space, f: nat, i: nat, j: nat)
    requires Owned(s, f, TOP) && i < ENTRIES && j < ENTRIES
    ensures i != j ==> Under(s.tables, f, TOP, i) !! Under(s.tables, f, TOP, j)
    ensures f !in Under(s.tables, f, TOP, j)
  {}

  // ---- rewriting a leaf in place ----

  /** Every entry on the way to a page's leaf leads to a table and is open to user mode. */
  predicate UserPath(t: Tables, f: nat, level: nat, page: nat)
    decreases level
  {
    && f in t && |t[f]| == ENTRIES
    && (level > 0 ==>
          var e := t[f][Digit(page, level)]; e.Live() && e.flags.user && UserPath(t, e.frame, level - 1, page))
  }

  /** The leaf entry of a page is overwritten where it stands. */
  function InPlace(t: Tables, f: nat, level: nat, page: nat, leaf: Entry): Tables
    decreases level
  {
    if f !in t || |t[f]| != ENTRIES then t
    else if level == 0 then PutEntry(t, f, Digit(page, 0), leaf)
    else InPlace(t, t[f][Digit(page, level)].frame, level - 1, page, leaf)
  }

  /** On such a path map_in_pml4 makes no table and does the same. */
  lemma {:induction false} InPlaceIsMap(s: PageTable.Space, f: nat, level: nat, page: nat, leaf: Entry)
    requires UserPath(s.tables, f, level, page) && f != 0
    ensures MapAt(s, f, level, page, leaf) == (s.(tables := InPlace(s.tables, f, level, page, leaf)), true)
    decreases level
  {
    hide Digit, FirstFree;
    if level > 0 {
      SameEntry(s, f, Digit(page, level));
      InPlaceIsMap(s, s.tables[f][Digit(page, level)].frame, level - 1, page, leaf);
    }
  }

  lemma {:induction false} PathLocal(t: Tables, u: Tables, f: nat, level: nat, q: nat)
    requires Tree(t, f, level) && forall g :: g in Reach(t, f, level) ==> g in t && g in u && u[g] == t[g]
    ensures UserPath(u, f, level, q) <==> UserPath(t, f, level, q)
    decreases level
  {
    RootFacts(t, f, level, Digit(q, level));
    if level > 0 && t[f][Digit(q, level)].Live() {
      ChildTree(t, f, level, Digit(q, level));
      hide Tree, Reach, Under, Digit;
      PathLocal(t, u, t[f][Digit(q, level)].frame, level - 1, q);
    }
  }

  /** Overwriting a leaf changes one leaf table of the tree. */
  lemma {:induction false} InPlaceWithin(t: Tables, f: nat, level: nat, page: nat, leaf: Entry)
    requires Tree(t, f, level) && UserPath(t, f, level, page)
    ensures var u := InPlace(t, f, level, page, leaf);
            u.Keys == t.Keys && forall g :: g in t && g !in Reach(t, f, level) ==> u[g] == t[g]
    decreases level
  {
    var i := Digit(page, level);
    RootFacts(t, f, level, i);
    if level > 0 {
      ChildTree(t, f, level, i);
      hide Tree, Reach, Under, Digit;
      InPlaceWithin(t, t[f][i].frame, level - 1, page, leaf);
    }
  }

  lemma {:induction false} PathStays(t: Tables, f: nat, level: nat, page: nat, leaf: Entry, q: nat)
    requires Tree(t, f, level) && UserPath(t, f, level, page)
    ensures UserPath(InPlace(t, f, level, page, leaf), f, level, q) <==> UserPath(t, f, level, q)
    decreases level
  {
    if level > 0 {
      var i, j := Digit(page, level), Digit(q, level);
      var u := InPlace(t, f, level, page, leaf);
      RootFacts(t, f, level, i);
      ChildTree(t, f, level, i);
      TwoSlots(t, f, level, i, j);
      hide Tree, Reach, Under, Digit;
      InPlaceWithin(t, t[f][i].frame, level - 1, page, leaf);
      if i == j {
        PathStays(t, t[f][i].frame, level - 1, page, leaf, q);
      } else if t[f][j].Live() {
        PathLocal(t, u, t[f][j].frame, level - 1, q);
      }
    }
  }

  lemma TwoSlots(t: Tables, f: nat, level: nat, i: nat, j: nat)
    requires Tree(t, f, level) && level > 0 && i < ENTRIES && j < ENTRIES && t[f][i].Live()
    ensures i != j && t[f][j].Live() ==>
              Tree(t, t[f][j].frame, level - 1) &&
              Reach(t, t[f][j].frame, level - 1) !! Reach(t, t[f][i].frame, level - 1) &&
              Reach(t, t[f][j].frame, level - 1) <= t.Keys
  {
    if i != j && t[f][j].Live() {
      ReachStored(t, t[f][j].frame, level - 1);
      ChildTree(t, f, level, i);
      ChildTree(t, f, level, j);
    }
  }
}
