// The four-level page table (src/kernel/vmm.c): tables in physical frames, walked and extended by index.
module PageTable {
  import opened Basics
  import opened Pmm

  const ENTRIES: nat := 512
  const TOP: nat := 3                       // level of the PML4; leaf tables are level 0
  const PAGES: nat := 0x10_0000_0000        // 2^36 pages: virtual address bits above 47 are ignored

  datatype Flags = Flags(present: bool, writable: bool, user: bool, other: nat)

  datatype Entry = Entry(frame: nat, flags: Flags) {
    /** Present and pointing at a frame: a walk may go through it. */
    predicate Live() { flags.present && frame != 0 }
  }

  const NONE := Entry(0, Flags(false, false, false, 0))

  type Table = seq<Entry>
  type Tables = map<nat, Table>

  /** A cleared page read as a table. */
  function EmptyTable(): (t: Table)
    ensures |t| == ENTRIES && forall i :: 0 <= i < ENTRIES ==> t[i] == NONE
  {
    seq(ENTRIES, _ => NONE)
  }

  function TableFlags(user: bool): Flags { Flags(true, true, user, 0) }

  /** The index a page selects in a table of the given level: one base-512 digit of the page number. */
  function Digit(page: nat, level: nat): (i: nat)
    ensures i < ENTRIES
  {
    if level == 0 then page % 512 else Digit(page / 512, level - 1)
  }


  /** The walk that vmm_is_mapped and vmm_virt_to_phys make: the leaf entry a page translates by. */
  function Lookup(t: Tables, f: nat, level: nat, page: nat): Option<Entry>
    decreases level
  {
    if f !in t || |t[f]| != ENTRIES then None else
    var e := t[f][Digit(page, level)];
    if level == 0 then (if e.flags.present then Some(e) else None)
    else if !e.Live() then None
    else Lookup(t, e.frame, level - 1, page)
  }

  /** The frames that hold the tables under f. */
  ghost function Reach(t: Tables, f: nat, level: nat): set<nat>
    decreases level, 1
  {
    {f} + set i, g | 0 <= i < ENTRIES && g in Under(t, f, level, i) :: g
  }

  /** The frames of the tables that entry i of table f leads to. */
  ghost function Under(t: Tables, f: nat, level: nat, i: nat): set<nat>
    decreases level, 0
  {
    if level > 0 && f in t && i < |t[f]| && t[f][i].Live() then Reach(t, t[f][i].frame, level - 1) else {}
  }

  /** The tables under f form a tree: no table is reached along two index paths. */
  ghost predicate Tree(t: Tables, f: nat, level: nat)
    decreases level
  {
    && f in t && |t[f]| == ENTRIES
    && (level > 0 ==> forall i :: 0 <= i < ENTRIES && t[f][i].Live() ==> Tree(t, t[f][i].frame, level - 1))
    && (forall i :: 0 <= i < ENTRIES ==> f !in Under(t, f, level, i))
    && (forall i, j :: 0 <= i < j < ENTRIES ==> Under(t, f, level, i) !! Under(t, f, level, j))
  }

  /** What lies outside the tables under f does not matter to them. */
  lemma {:induction false} Local(t: Tables, u: Tables, f: nat, level: nat, page: nat)
    requires Tree(t, f, level)
    requires forall g :: g in Reach(t, f, level) ==> g in t && g in u && u[g] == t[g]
    ensures Lookup(u, f, level, page) == Lookup(t, f, level, page)
    ensures Reach(u, f, level) == Reach(t, f, level)
    ensures Tree(u, f, level)
    decreases level
  {
    assert f in Reach(t, f, level);
    forall i | 0 <= i < ENTRIES
      ensures Under(u, f, level, i) == Under(t, f, level, i)
      ensures level > 0 && t[f][i].Live() ==> Tree(u, t[f][i].frame, level - 1)
      ensures level > 0 && t[f][i].Live() ==>
                Lookup(u, t[f][i].frame, level - 1, page) == Lookup(t, t[f][i].frame, level - 1, page)
    {
      if level > 0 && t[f][i].Live() {
        assert Under(t, f, level, i) <= Reach(t, f, level);
        Local(t, u, t[f][i].frame, level - 1, page);
      }
    }
  }

  // ---- ensure_next_table ----

  datatype Space = Space(tables: Tables, frames: Frames)

  /** The entry to go through, after an entry that is present but points nowhere has been cleared. */
  function Cleaned(e: Entry): Entry { if e.flags.present && e.frame == 0 then NONE else e }

  function PutEntry(t: Tables, f: nat, i: nat, e: Entry): Tables
    requires f in t && i < |t[f]|
  {
    var row: Table := t[f][i := e];
    t[f := row]
  }

  /**
   * The table entry i of table f leads to, created empty or, for a user mapping through a kernel-only
   * entry, copied; 0 when there is no frame for it.
   */
  function Ensure(s: Space, f: nat, i: nat, user: bool): (Space, nat) {
    if f == 0 || f !in s.tables || i >= |s.tables[f]| then (s, 0) else
    var e := Cleaned(s.tables[f][i]);
    var t := PutEntry(s.tables, f, i, e);
    var n := FirstFree(s.frames.used);
    if e.flags.present && (e.flags.user || !user) then (s.(tables := t), e.frame)
    else if n >= |s.frames.used| || n >= |s.frames.refs| then (s.(tables := t), 0)
    else
      var content := if e.flags.present && e.frame in t then t[e.frame] else EmptyTable();
      (Space(PutEntry(t, f, i, Entry(n, TableFlags(user)))[n := content], Take(s.frames, n)), n)
  }

  /** map_in_pml4 from a table of the given level down: make the next table, then go on in it. */
  function MapAt(s: Space, f: nat, level: nat, page: nat, leaf: Entry): (Space, bool)
    decreases level
  {
    if level == 0 then
      if f in s.tables && |s.tables[f]| == ENTRIES
      then (s.(tables := PutEntry(s.tables, f, Digit(page, 0), leaf)), true) else (s, false)
    else
      var (s1, next) := Ensure(s, f, Digit(page, level), leaf.flags.user);
      if next == 0 then (s1, false) else MapAt(s1, next, level - 1, page, leaf)
  }

  /** Every table of the tree lies in a frame the memory manager holds as used. */
  ghost predicate Owned(s: Space, f: nat, level: nat) {
    && Consistent(s.frames) && s.frames.reserved > 0
    && Tree(s.tables, f, level)
    && f != 0
    && forall g :: g in Reach(s.tables, f, level) ==> g < |s.frames.used| && s.frames.used[g]
  }

  // ---- how one entry's change shows in the tree ----

  lemma {:induction false} ReachStored(t: Tables, f: nat, level: nat)
    requires Tree(t, f, level)
    ensures Reach(t, f, level) <= t.Keys && f in Reach(t, f, level)
    decreases level
  {
    forall i | 0 <= i < ENTRIES
      ensures Under(t, f, level, i) <= t.Keys
    {
      if level > 0 && t[f][i].Live() {
        ReachStored(t, t[f][i].frame, level - 1);
      }
    }
  }

  /** Tables u are tables t with a new subtree at entry i of table f and nothing else under f changed. */
  ghost predicate Replaced(t: Tables, u: Tables, f: nat, level: nat, i: nat) {
    && level > 0 && i < ENTRIES && Tree(t, f, level)
    && f in u && |u[f]| == ENTRIES
    && (u[f][i].Live() ==> Tree(u, u[f][i].frame, level - 1))
    && f !in Under(u, f, level, i)
    && forall j :: 0 <= j < ENTRIES && j != i ==> Untouched(t, u, f, level, i, j)
  }

  ghost predicate Untouched(t: Tables, u: Tables, f: nat, level: nat, i: nat, j: nat)
    requires f in t && |t[f]| == ENTRIES && f in u && |u[f]| == ENTRIES && j < ENTRIES
  {
    && u[f][j] == t[f][j]
    && Under(t, f, level, j) !! Under(u, f, level, i)
    && forall g :: g in Under(t, f, level, j) ==> g in t && g in u && u[g] == t[g]
  }

  lemma SiblingKept(t: Tables, u: Tables, f: nat, level: nat, i: nat, j: nat, page: nat)
    requires Replaced(t, u, f, level, i) && j < ENTRIES && j != i
    ensures Under(u, f, level, j) == Under(t, f, level, j)
    ensures t[f][j].Live() ==> Tree(u, t[f][j].frame, level - 1)
    ensures t[f][j].Live() ==> Lookup(u, t[f][j].frame, level - 1, page) == Lookup(t, t[f][j].frame, level - 1, page)
  {
    assert Untouched(t, u, f, level, i, j);
    if t[f][j].Live() {
      Local(t, u, t[f][j].frame, level - 1, page);
    }
  }

  lemma ReplacedTree(t: Tables, u: Tables, f: nat, level: nat, i: nat)
    requires Replaced(t, u, f, level, i)
    ensures Tree(u, f, level)
    ensures Reach(u, f, level) <= Reach(t, f, level) + Under(u, f, level, i)
  {
    forall j | 0 <= j < ENTRIES && j != i
      ensures Under(u, f, level, j) == Under(t, f, level, j)
      ensures u[f][j].Live() ==> Tree(u, u[f][j].frame, level - 1)
      ensures Under(u, f, level, j) !! Under(u, f, level, i)
      ensures f !in Under(u, f, level, j)
    {
      SiblingKept(t, u, f, level, i, j, 0);
      assert Untouched(t, u, f, level, i, j);
    }
  }

  /** Pages that do not go through the replaced entry translate as before. */
  lemma ReplacedLookup(t: Tables, u: Tables, f: nat, level: nat, i: nat, page: nat)
    requires Replaced(t, u, f, level, i) && Digit(page, level) != i
    ensures Lookup(u, f, level, page) == Lookup(t, f, level, page)
  {
    assert Untouched(t, u, f, level, i, Digit(page, level));
    SiblingKept(t, u, f, level, i, Digit(page, level), page);
  }

  /** A copy of a table leads to the same tables as the original. */
  lemma CopyTable(t: Tables, u: Tables, a: nat, b: nat, level: nat, page: nat)
    requires Tree(t, a, level) && b in u && u[b] == t[a] && b !in Reach(t, a, level)
    requires forall g :: g in Reach(t, a, level) && g != a ==> g in t && g in u && u[g] == t[g]
    ensures Tree(u, b, level)
    ensures Lookup(u, b, level, page) == Lookup(t, a, level, page)
    ensures Reach(u, b, level) == (Reach(t, a, level) - {a}) + {b}
  {
    forall i | 0 <= i < ENTRIES
      ensures Under(u, b, level, i) == Under(t, a, level, i)
      ensures Under(t, a, level, i) <= Reach(t, a, level) - {a}
      ensures level > 0 && t[a][i].Live() ==> Tree(u, t[a][i].frame, level - 1)
      ensures level > 0 && t[a][i].Live() ==>
                Lookup(u, t[a][i].frame, level - 1, page) == Lookup(t, t[a][i].frame, level - 1, page)
    {
      if level > 0 && t[a][i].Live() {
        assert Under(t, a, level, i) <= Reach(t, a, level);
        Local(t, u, t[a][i].frame, level - 1, page);
      }
    }
  }

  lemma EmptyLeads(u: Tables, b: nat, level: nat, page: nat)
    requires b in u && u[b] == EmptyTable()
    ensures Tree(u, b, level) && Lookup(u, b, level, page) == None && Reach(u, b, level) == {b}
  {
    assert forall i :: 0 <= i < ENTRIES ==> !u[b][i].Live();
  }

  lemma UnderSplit(t: Tables, f: nat, level: nat, i: nat, j: nat)
    requires Tree(t, f, level) && i < ENTRIES && j < ENTRIES && i != j
    ensures Under(t, f, level, i) !! Under(t, f, level, j)
    ensures Under(t, f, level, j) <= Reach(t, f, level) - {f}
  {}

  lemma MakeReplaced(t: Tables, u: Tables, f: nat, level: nat, i: nat)
    requires Tree(t, f, level) && level > 0 && i < ENTRIES
    requires f in u && |u[f]| == ENTRIES && forall j :: 0 <= j < ENTRIES && j != i ==> u[f][j] == t[f][j]
    requires forall g :: g in Reach(t, f, level) && g !in Under(t, f, level, i) && g != f ==>
            g in u && g in t && u[g] == t[g]
    requires u[f][i].Live() ==> Tree(u, u[f][i].frame, level - 1)
    requires Under(u, f, level, i) !! (Reach(t, f, level) - Under(t, f, level, i))
    ensures Replaced(t, u, f, level, i)
  {
    hide Reach, Under, Tree;
    RootFacts(t, f, level, i);
    forall j | 0 <= j < ENTRIES && j != i
      ensures Untouched(t, u, f, level, i, j)
    {
      UnderSplit(t, f, level, i, j);
    }
  }

  lemma RootFacts(t: Tables, f: nat, level: nat, i: nat)
    requires Tree(t, f, level) && i < ENTRIES
    ensures f in t && |t[f]| == ENTRIES && f in Reach(t, f, level) && f !in Under(t, f, level, i)
    ensures Under(t, f, level, i) <= Reach(t, f, level)
  {}

  // ---- what ensure_next_table keeps ----

  predicate Unused(s: Space, g: nat) { g < |s.frames.used| && !s.frames.used[g] }

  /** Only tables under f and frames that were unused may differ, and no frame became unused. */
  ghost predicate Grown(s: Space, d: Space, f: nat, level: nat) {
    && |d.frames.used| == |s.frames.used|
    && (forall g :: 0 <= g < |s.frames.used| && s.frames.used[g] ==> d.frames.used[g])
    && (forall g :: g in Reach(d.tables, f, level) ==> g in Reach(s.tables, f, level) || Unused(s, g))
    && (forall g :: g in s.tables && g !in Reach(s.tables, f, level) && !Unused(s, g) ==>
          g in d.tables && d.tables[g] == s.tables[g])
  }

  /** Clearing an entry no walk can go through changes no translation. */
  lemma ClearedEntry(s: Space, f: nat, level: nat, i: nat, e: Entry, page: nat)
    requires Owned(s, f, level) && level > 0 && i < ENTRIES && !s.tables[f][i].Live() && !e.Live()
    ensures var d := s.(tables := PutEntry(s.tables, f, i, e));
            Owned(d, f, level) && Grown(s, d, f, level) &&
                    Lookup(d.tables, f, level, page) == Lookup(s.tables, f, level, page)
  {
    var u := PutEntry(s.tables, f, i, e);
    ReachStored(s.tables, f, level);
    MakeReplaced(s.tables, u, f, level, i);
    ReplacedTree(s.tables, u, f, level, i);
    if Digit(page, level) != i {
      ReplacedLookup(s.tables, u, f, level, i, page);
    }
  }

  /** A fresh frame n hangs below entry i of table f. */
  ghost predicate Hung(s: Space, d: Space, f: nat, i: nat, n: nat) {
    && f in s.tables && i < |s.tables[f]| && n in d.tables && f != n
    && Unused(s, n) && n != 0 && n < |s.frames.refs|
    && d.frames == Take(s.frames, n)
    && exists user :: d.tables == PutEntry(s.tables, f, i, Entry(n, TableFlags(user)))[n := d.tables[n]]
  }

  lemma HungReplaced(s: Space, d: Space, f: nat, level: nat, i: nat, n: nat)
    requires Owned(s, f, level) && level > 0 && i < ENTRIES && Hung(s, d, f, i, n)
    requires Tree(d.tables, n, level - 1)
    requires Reach(d.tables, n, level - 1) <= Under(s.tables, f, level, i) + {n}
    ensures d.tables[f][i].Live() && d.tables[f][i].frame == n
    ensures Under(d.tables, f, level, i) == Reach(d.tables, n, level - 1)
    ensures Replaced(s.tables, d.tables, f, level, i)
  {
    var t, u := s.tables, d.tables;
    ReachStored(t, f, level);
    RootFacts(t, f, level, i);
    assert Under(u, f, level, i) == Reach(u, n, level - 1);
    hide Reach, Under, Tree;
    MakeReplaced(t, u, f, level, i);
  }

  lemma HungKeeps(s: Space, d: Space, f: nat, level: nat, i: nat, n: nat, page: nat)
    requires Owned(s, f, level) && level > 0 && i < ENTRIES && Hung(s, d, f, i, n)
    requires Tree(d.tables, n, level - 1)
    requires Reach(d.tables, n, level - 1) <= Under(s.tables, f, level, i) + {n}
    requires Digit(page, level) == i ==> Lookup(d.tables, n, level - 1, page) == Lookup(s.tables, f, level, page)
    ensures Owned(d, f, level) && Grown(s, d, f, level)
    ensures Lookup(d.tables, f, level, page) == Lookup(s.tables, f, level, page)
    ensures d.tables[f][i].Live() && d.tables[f][i].frame == n
  {
    hide Reach, Under, Tree, Replaced, Digit, Consistent;
    HungReplaced(s, d, f, level, i, n);
    ReplacedTree(s.tables, d.tables, f, level, i);
    RootFacts(s.tables, f, level, i);
    RootFacts(d.tables, f, level, i);
    if Digit(page, level) != i {
      ReplacedLookup(s.tables, d.tables, f, level, i, page);
    }
    TakeKeeps(s.frames, n);
  }

  lemma TakeKeeps(p: Frames, n: nat)
    requires Consistent(p) && n < |p.used| && !p.used[n]
    ensures Consistent(Take(p, n))
  {}

  /** The frame first fit finds is unused, not frame 0 and not one of the tree's tables. */
  lemma FoundFrame(s: Space, f: nat, level: nat)
    requires Owned(s, f, level) && FirstFree(s.frames.used) < |s.frames.used|
    ensures var n := FirstFree(s.frames.used);
            Unused(s, n) && n != 0 && n < |s.frames.refs| && n !in Reach(s.tables, f, level) && n != f
  {
    hide Under;
    assert f in Reach(s.tables, f, level);
  }

  lemma EnsureNew(s: Space, f: nat, level: nat, i: nat, user: bool, page: nat)
    requires Owned(s, f, level) && level > 0 && i < ENTRIES && !s.tables[f][i].Live()
    requires FirstFree(s.frames.used) < |s.frames.used|
    ensures var (d, n) := Ensure(s, f, i, user);
            && Owned(d, f, level) && Grown(s, d, f, level)
            && Lookup(d.tables, f, level, page) == Lookup(s.tables, f, level, page)
            && n != 0 && d.tables[f][i].Live() && d.tables[f][i].frame == n
  {
    hide FirstFree;
    var (d, n) := Ensure(s, f, i, user);
    FoundFrame(s, f, level);
    PutTwice(s.tables, f, i, Cleaned(s.tables[f][i]), Entry(n, TableFlags(user)));
    assert d.tables == PutEntry(s.tables, f, i, Entry(n, TableFlags(user)))[n := d.tables[n]];
    hide Tree, Reach, Owned, Grown;
    EmptyLeads(d.tables, n, level - 1, page);
    HungKeeps(s, d, f, level, i, n, page);
  }

  /** What copying the table below entry i of table f produces. */
  lemma CopyResult(s: Space, f: nat, level: nat, i: nat)
    requires Owned(s, f, level) && level > 0 && i < ENTRIES && s.tables[f][i].Live() && !s.tables[f][i].flags.user
    requires FirstFree(s.frames.used) < |s.frames.used|
    ensures var n, a := FirstFree(s.frames.used), s.tables[f][i].frame;
            && a in s.tables
            && Ensure(s, f, i, true) ==
               (Space(PutEntry(s.tables, f, i, Entry(n, TableFlags(true)))[n := s.tables[a]], Take(s.frames, n)), n)
  {
    hide FirstFree;
    var t, a := s.tables, s.tables[f][i].frame;
    FoundFrame(s, f, level);
    ReachStored(t, a, level - 1);
    SameEntry(s, f, i);
  }

  lemma EnsureCopy(s: Space, f: nat, level: nat, i: nat, page: nat)
    requires Owned(s, f, level) && level > 0 && i < ENTRIES && s.tables[f][i].Live() && !s.tables[f][i].flags.user
    requires FirstFree(s.frames.used) < |s.frames.used|
    ensures var (d, n) := Ensure(s, f, i, true);
            && Owned(d, f, level) && Grown(s, d, f, level)
            && Lookup(d.tables, f, level, page) == Lookup(s.tables, f, level, page)
            && n != 0 && d.tables[f][i].Live() && d.tables[f][i].frame == n
  {
    OwnedRoot(s, f, level);
    hide FirstFree, Ensure, Reach, Under, Tree, Owned, Grown, Consistent;
    var (d, n) := Ensure(s, f, i, true);
    var t, a := s.tables, s.tables[f][i].frame;
    CopyResult(s, f, level, i);
    FoundFrame(s, f, level);
    ChildOwned(s, f, level, i);
    ChildStored(s, f, level, i);
    CopyTable(t, d.tables, a, n, level - 1, page);
    HungKeeps(s, d, f, level, i, n, page);
  }

  lemma ChildStored(s: Space, f: nat, level: nat, i: nat)
    requires Owned(s, f, level) && level > 0 && i < ENTRIES && s.tables[f][i].Live()
    ensures Tree(s.tables, s.tables[f][i].frame, level - 1)
    ensures Reach(s.tables, s.tables[f][i].frame, level - 1) <= s.tables.Keys - {f}
  {
    ReachStored(s.tables, s.tables[f][i].frame, level - 1);
    RootFacts(s.tables, f, level, i);
    assert Under(s.tables, f, level, i) == Reach(s.tables, s.tables[f][i].frame, level - 1);
  }

  /** ensure_next_table, whether it succeeds or not, changes no translation and keeps the tree. */
  lemma EnsureKeeps(s: Space, f: nat, level: nat, i: nat, user: bool, page: nat)
    requires Owned(s, f, level) && level > 0 && i < ENTRIES
    ensures var (d, n) := Ensure(s, f, i, user);
            && Owned(d, f, level) && Grown(s, d, f, level)
            && Lookup(d.tables, f, level, page) == Lookup(s.tables, f, level, page)
            && (n != 0 ==> d.tables[f][i].Live() && d.tables[f][i].frame == n)
  {
    hide FirstFree, Under;
    var e := s.tables[f][i];
    if e.Live() && (e.flags.user || !user) {
      SameEntry(s, f, i);
    } else if FirstFree(s.frames.used) >= |s.frames.used| {
      if e.Live() {
        SameEntry(s, f, i);
      } else {
        ClearedEntry(s, f, level, i, Cleaned(e), page);
      }
    } else if e.Live() {
      EnsureCopy(s, f, level, i, page);
    } else {
      EnsureNew(s, f, level, i, user, page);
    }
  }

  lemma PutTwice(t: Tables, f: nat, i: nat, e: Entry, e': Entry)
    requires f in t && i < |t[f]|
    ensures PutEntry(PutEntry(t, f, i, e), f, i, e') == PutEntry(t, f, i, e')
  {
    assert t[f][i := e][i := e'] == t[f][i := e'];
  }

  lemma SameEntry(s: Space, f: nat, i: nat)
    requires f in s.tables && i < |s.tables[f]|
    ensures s.(tables := PutEntry(s.tables, f, i, s.tables[f][i])) == s
  {
    assert s.tables[f][i := s.tables[f][i]] == s.tables[f];
    assert PutEntry(s.tables, f, i, s.tables[f][i]) == s.tables;
  }

  // ---- map_in_pml4 ----

  /** Two pages take the same entries from this level down. */
  predicate SamePath(p: nat, q: nat, level: nat)
    decreases level
  {
    Digit(p, level) == Digit(q, level) && (level > 0 ==> SamePath(p, q, level - 1))
  }

  /** What a page translates to once `leaf` has been written for `page`. */
  function Written(old_: Option<Entry>, page: nat, leaf: Entry, q: nat, level: nat): Option<Entry> {
    if !SamePath(page, q, level) then old_ else if leaf.flags.present then Some(leaf) else None
  }

  lemma LeafWritten(s: Space, f: nat, page: nat, leaf: Entry, q: nat)
    requires Owned(s, f, 0)
    ensures var (d, ok) := MapAt(s, f, 0, page, leaf);
            && ok && Owned(d, f, 0) && Grown(s, d, f, 0)
            && Lookup(d.tables, f, 0, q) == Written(Lookup(s.tables, f, 0, q), page, leaf, q, 0)
  {}

  /** A subtree is a tree of its own. */
  lemma ChildOwned(s: Space, f: nat, level: nat, i: nat)
    requires Owned(s, f, level) && level > 0 && i < ENTRIES && s.tables[f][i].Live()
    ensures Owned(s, s.tables[f][i].frame, level - 1)
    ensures Under(s.tables, f, level, i) == Reach(s.tables, s.tables[f][i].frame, level - 1)
    ensures Under(s.tables, f, level, i) <= Reach(s.tables, f, level)
  {
    RootFacts(s.tables, f, level, i);
    ChildTree(s.tables, f, level, i);
    hide Reach, Under, Tree;
    assert s.tables[f][i].frame != 0;
    forall g | g in Reach(s.tables, s.tables[f][i].frame, level - 1)
      ensures g < |s.frames.used| && s.frames.used[g]
    {
      assert g in Reach(s.tables, f, level);
    }
  }

  lemma ChildTree(t: Tables, f: nat, level: nat, i: nat)
    requires Tree(t, f, level) && level > 0 && i < ENTRIES && t[f][i].Live()
    ensures Tree(t, t[f][i].frame, level - 1) && Under(t, f, level, i) == Reach(t, t[f][i].frame, level - 1)
  {}

  /** Work confined to the subtree at entry i replaces that subtree and nothing else. */
  lemma DescendedReplaced(s: Space, d: Space, f: nat, level: nat, i: nat)
    requires Owned(s, f, level) && level > 0 && i < ENTRIES && s.tables[f][i].Live()
    requires Owned(d, s.tables[f][i].frame, level - 1) && Grown(s, d, s.tables[f][i].frame, level - 1)
    ensures f in d.tables && d.tables[f] == s.tables[f]
    ensures Under(d.tables, f, level, i) == Reach(d.tables, s.tables[f][i].frame, level - 1)
    ensures Replaced(s.tables, d.tables, f, level, i)
  {
    var t, u, g := s.tables, d.tables, s.tables[f][i].frame;
    ChildOwned(s, f, level, i);
    RootFacts(t, f, level, i);
    ReachStored(t, f, level);
    assert f in u && u[f] == t[f];
    assert Under(u, f, level, i) == Reach(u, g, level - 1);
    hide Reach, Under, Tree;
    MakeReplaced(t, u, f, level, i);
  }

  lemma Descended(s: Space, d: Space, f: nat, level: nat, i: nat)
    requires Owned(s, f, level) && level > 0 && i < ENTRIES && s.tables[f][i].Live()
    requires Owned(d, s.tables[f][i].frame, level - 1) && Grown(s, d, s.tables[f][i].frame, level - 1)
    ensures f in d.tables && d.tables[f] == s.tables[f]
    ensures Replaced(s.tables, d.tables, f, level, i)
    ensures Owned(d, f, level) && Grown(s, d, f, level)
  {
    hide Reach, Under, Tree, Replaced;
    ChildOwned(s, f, level, i);
    DescendedReplaced(s, d, f, level, i);
    ReplacedTree(s.tables, d.tables, f, level, i);
  }

  /** One level of the walk: the result below entry i is the result for the pages that go through it. */
  lemma StepUp(s: Space, d: Space, f: nat, level: nat, page: nat, leaf: Entry, q: nat, ok: bool)
    requires Owned(s, f, level) && level > 0 && s.tables[f][Digit(page, level)].Live()
    requires var g := s.tables[f][Digit(page, level)].frame;
             && Owned(d, g, level - 1) && Grown(s, d, g, level - 1)
             && Lookup(d.tables, g, level - 1, q) ==
                if ok then Written(Lookup(s.tables, g, level - 1, q), page, leaf, q, level - 1)
                else Lookup(s.tables, g, level - 1, q)
    ensures Owned(d, f, level) && Grown(s, d, f, level)
    ensures Lookup(d.tables, f, level, q) ==
            if ok then Written(Lookup(s.tables, f, level, q), page, leaf, q, level) else Lookup(s.tables, f, level, q)
  {
    var i := Digit(page, level);
    OwnedRoot(s, f, level);
    hide Owned, Grown, Tree, Reach, Under, Digit, Replaced;
    Descended(s, d, f, level, i);
    if Digit(q, level) != i {
      ReplacedLookup(s.tables, d.tables, f, level, i, q);
    }
  }

  /** map_in_pml4: success rewrites the translation of one page, failure of none, and the tree survives both. */
  lemma {:induction false} MapAtKeeps(s: Space, f: nat, level: nat, page: nat, leaf: Entry, q: nat)
    requires Owned(s, f, level)
    ensures var (d, ok) := MapAt(s, f, level, page, leaf);
            && Owned(d, f, level) && Grown(s, d, f, level)
            && Lookup(d.tables, f, level, q) ==
               if ok then Written(Lookup(s.tables, f, level, q), page, leaf, q, level)
                  else Lookup(s.tables, f, level, q)
    decreases level
  {
    hide MapAt, Ensure, Owned, Grown, Tree, Reach, Under, Digit, Lookup, Written;
    if level == 0 {
      LeafWritten(s, f, page, leaf, q);
      return;
    }
    MapAtStep(s, f, level, page, leaf);
    var i := Digit(page, level);
    var (s1, next) := Ensure(s, f, i, leaf.flags.user);
    EnsureKeeps(s, f, level, i, leaf.flags.user, q);
    if next != 0 {
      ChildOwned(s1, f, level, i);
      MapAtKeeps(s1, next, level - 1, page, leaf, q);
      var (d, ok) := MapAt(s1, next, level - 1, page, leaf);
      StepUp(s1, d, f, level, page, leaf, q, ok);
      GrownTrans(s, s1, d, f, level);
    }
  }

  lemma MapAtStep(s: Space, f: nat, level: nat, page: nat, leaf: Entry)
    requires level > 0
    ensures var (s1, next) := Ensure(s, f, Digit(page, level), leaf.flags.user);
            MapAt(s, f, level, page, leaf) == if next == 0 then (s1, false) else MapAt(s1, next, level - 1, page, leaf)
  {
    hide Ensure, Digit;
  }

  lemma OwnedRoot(s: Space, f: nat, level: nat)
    requires Owned(s, f, level)
    ensures f in s.tables && |s.tables[f]| == ENTRIES
  {}

  lemma GrownTrans(s: Space, d: Space, e: Space, f: nat, level: nat)
    requires Grown(s, d, f, level) && Grown(d, e, f, level)
    ensures Grown(s, e, f, level)
  {
    hide Reach;
  }
}
