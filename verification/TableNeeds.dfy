// What mapping a page costs: the tables its path lacks, and that it succeeds exactly when so many frames are free
// (src/kernel/vmm.c over src/kernel/memory.c).
module TableNeeds {
  import opened Pmm
  import opened PageTable

  // ---- free frames ----

  function FreeFrames(used: seq<bool>): nat {
    if used == [] then 0 else (if used[0] then 0 else 1) + FreeFrames(used[1..])
  }

  lemma {:induction false} FreeTaken(used: seq<bool>, i: nat)
    requires i < |used| && !used[i]
    ensures FreeFrames(used) == FreeFrames(used[i := true]) + 1
  {
    if i == 0 {
      assert used[0 := true][1..] == used[1..];
    } else {
      FreeTaken(used[1..], i - 1);
      assert used[i := true][1..] == used[1..][i - 1 := true];
    }
  }

  lemma {:induction false} NoneFree(used: seq<bool>)
    ensures FreeFrames(used) == 0 <==> FirstFree(used) == |used|
  {
    if used != [] {
      NoneFree(used[1..]);
    }
  }

  // ---- what a path has ----

  /** The entry a page goes through at level k: 0 if it leads nowhere, 1 if to a kernel table, 2 if to a user one. */
  function Mark(t: Tables, f: nat, level: nat, page: nat, k: nat): nat
    decreases level
  {
    if level == 0 || f !in t || |t[f]| != ENTRIES || !t[f][Digit(page, level)].Live() then 0
    else
      var e := t[f][Digit(page, level)];
      if level == k then (if e.flags.user then 2 else 1) else Mark(t, e.frame, level - 1, page, k)
  }

  /** The entry a page goes through at level k leads to a table but is read-only, which no store gets past. */
  predicate Locked(t: Tables, f: nat, level: nat, page: nat, k: nat)
    decreases level
  {
    level > 0 && f in t && |t[f]| == ENTRIES &&
    var e := t[f][Digit(page, level)];
    e.Live() && if level == k then !e.flags.writable else Locked(t, e.frame, level - 1, page, k)
  }

  function Want(user: bool): nat { if user then 2 else 1 }

  function Raised(m: nat, user: bool): nat { if m < Want(user) then Want(user) else m }

  /** How many tables a mapping must make at levels k and below of a page's path. */
  function Missing(t: Tables, f: nat, level: nat, page: nat, user: bool, k: nat): nat
    decreases k
  {
    if k == 0 then 0
    else (if Mark(t, f, level, page, k) < Want(user) then 1 else 0) + Missing(t, f, level, page, user, k - 1)
  }

  /** Two pages go through the same entries from one level down to level k. */
  predicate SamePrefix(p: nat, q: nat, level: nat, k: nat)
    decreases level
  {
    Digit(p, level) == Digit(q, level) && (level > k ==> SamePrefix(p, q, level - 1, k))
  }

  // ---- marks depend on the tree's tables only ----

  lemma {:induction false} MarkLocal(t: Tables, u: Tables, f: nat, level: nat, q: nat, k: nat)
    requires Tree(t, f, level) && forall g :: g in Reach(t, f, level) ==> g in t && g in u && u[g] == t[g]
    ensures Mark(u, f, level, q, k) == Mark(t, f, level, q, k)
    ensures Locked(u, f, level, q, k) == Locked(t, f, level, q, k)
    decreases level
  {
    RootFacts(t, f, level, Digit(q, level));
    if level > 0 && t[f][Digit(q, level)].Live() {
      ChildTree(t, f, level, Digit(q, level));
      hide Tree, Reach, Under, Digit;
      MarkLocal(t, u, t[f][Digit(q, level)].frame, level - 1, q, k);
    }
  }

  lemma MarkReplaced(t: Tables, u: Tables, f: nat, level: nat, i: nat, q: nat, k: nat)
    requires Replaced(t, u, f, level, i) && Digit(q, level) != i
    ensures Mark(u, f, level, q, k) == Mark(t, f, level, q, k)
    ensures Locked(u, f, level, q, k) == Locked(t, f, level, q, k)
  {
    var j := Digit(q, level);
    hide Digit;
    assert Untouched(t, u, f, level, i, j);
    if t[f][j].Live() {
      ChildTree(t, f, level, j);
      hide Tree, Reach, Under;
      MarkLocal(t, u, t[f][j].frame, level - 1, q, k);
    }
  }

  lemma MarkCopied(t: Tables, u: Tables, a: nat, b: nat, level: nat, q: nat, k: nat)
    requires Tree(t, a, level) && b in u && u[b] == t[a]
    requires forall g :: g in Reach(t, a, level) && g != a ==> g in t && g in u && u[g] == t[g]
    ensures Mark(u, b, level, q, k) == Mark(t, a, level, q, k)
    ensures Locked(u, b, level, q, k) == Locked(t, a, level, q, k)
  {
    var j := Digit(q, level);
    hide Digit;
    RootFacts(t, a, level, j);
    if level > 0 && t[a][j].Live() {
      ChildTree(t, a, level, j);
      hide Tree, Reach, Under;
      MarkLocal(t, u, t[a][j].frame, level - 1, q, k);
    }
  }

  // ---- ensure_next_table ----

  lemma NewMarks(s: Space, f: nat, level: nat, i: nat, user: bool, q: nat, k: nat)
    requires Owned(s, f, level) && i < ENTRIES && !s.tables[f][i].Live() && 1 <= k <= level
    requires FirstFree(s.frames.used) < |s.frames.used|
    ensures var d := Ensure(s, f, i, user).0;
            Mark(d.tables, f, level, q, k) ==
            if Digit(q, level) == i && k == level then Want(user) else Mark(s.tables, f, level, q, k)
    ensures Locked(Ensure(s, f, i, user).0.tables, f, level, q, k) ==> Locked(s.tables, f, level, q, k)
  {
    hide FirstFree;
    var (d, n) := Ensure(s, f, i, user);
    FoundFrame(s, f, level);
    PutTwice(s.tables, f, i, Cleaned(s.tables[f][i]), Entry(n, TableFlags(user)));
    assert d.tables == PutEntry(s.tables, f, i, Entry(n, TableFlags(user)))[n := d.tables[n]];
    hide Tree, Reach, Under, Owned, Digit;
    EmptyLeads(d.tables, n, level - 1, q);
    HungReplaced(s, d, f, level, i, n);
    if Digit(q, level) != i {
      MarkReplaced(s.tables, d.tables, f, level, i, q, k);
    } else {
      EmptyMark(d.tables, n, level - 1, q, k);
    }
  }

  lemma EmptyMark(t: Tables, n: nat, level: nat, q: nat, k: nat)
    requires n in t && t[n] == EmptyTable()
    ensures Mark(t, n, level, q, k) == 0 && !Locked(t, n, level, q, k)
  {}

  lemma CopyMarks(s: Space, f: nat, level: nat, i: nat, q: nat, k: nat)
    requires Owned(s, f, level) && i < ENTRIES && s.tables[f][i].Live() && !s.tables[f][i].flags.user
    requires 1 <= k <= level && FirstFree(s.frames.used) < |s.frames.used|
    ensures var d := Ensure(s, f, i, true).0;
            Mark(d.tables, f, level, q, k) ==
            if Digit(q, level) == i && k == level then 2 else Mark(s.tables, f, level, q, k)
    ensures Locked(Ensure(s, f, i, true).0.tables, f, level, q, k) ==> Locked(s.tables, f, level, q, k)
  {
    OwnedRoot(s, f, level);
    hide FirstFree, Ensure, Reach, Under, Tree, Owned, Digit;
    var (d, n) := Ensure(s, f, i, true);
    var t, a := s.tables, s.tables[f][i].frame;
    CopyResult(s, f, level, i);
    FoundFrame(s, f, level);
    ChildOwned(s, f, level, i);
    ChildStored(s, f, level, i);
    CopyTable(t, d.tables, a, n, level - 1, q);
    HungReplaced(s, d, f, level, i, n);
    if Digit(q, level) != i {
      MarkReplaced(t, d.tables, f, level, i, q, k);
    } else {
      MarkCopied(t, d.tables, a, n, level - 1, q, k);
    }
  }

  /** ensure_next_table, when it succeeds, raises the entry it ensures and no other mark. */
  lemma EnsureMarks(s: Space, f: nat, level: nat, i: nat, user: bool, q: nat, k: nat)
    requires Owned(s, f, level) && i < ENTRIES && 1 <= k <= level && Ensure(s, f, i, user).1 != 0
    ensures var d := Ensure(s, f, i, user).0;
            Mark(d.tables, f, level, q, k) ==
            if Digit(q, level) == i && k == level then Raised(Mark(s.tables, f, level, q, k), user)
            else Mark(s.tables, f, level, q, k)
    ensures Locked(Ensure(s, f, i, user).0.tables, f, level, q, k) ==> Locked(s.tables, f, level, q, k)
  {
    OwnedRoot(s, f, level);
    hide FirstFree, Under, Reach, Tree, Owned, Digit;
    var e := s.tables[f][i];
    if e.Live() && (e.flags.user || !user) {
      SameEntry(s, f, i);
    } else if e.Live() {
      CopyMarks(s, f, level, i, q, k);
    } else {
      NewMarks(s, f, level, i, user, q, k);
    }
  }

  /** It succeeds when it has nothing to make or a frame to make it in, and takes that frame. */
  lemma EnsureCost(s: Space, f: nat, level: nat, page: nat, user: bool)
    requires Owned(s, f, level) && level > 0
    ensures var (d, n) := Ensure(s, f, Digit(page, level), user);
            var lacks := Mark(s.tables, f, level, page, level) < Want(user);
            && (n != 0 <==> !lacks || FreeFrames(s.frames.used) > 0)
            && (n != 0 ==> FreeFrames(d.frames.used) == FreeFrames(s.frames.used) - if lacks then 1 else 0)
  {
    var i := Digit(page, level);
    OwnedRoot(s, f, level);
    NoneFree(s.frames.used);
    hide Under, Reach, Tree, Digit, FirstFree, FreeFrames;
    var e, n := s.tables[f][i], FirstFree(s.frames.used);
    if e.Live() && (e.flags.user || !user) {
      SameEntry(s, f, i);
    } else if n < |s.frames.used| {
      FoundFrame(s, f, level);
      FreeTaken(s.frames.used, n);
    }
  }

  lemma {:induction false} MissingBelow(t: Tables, f: nat, level: nat, page: nat, user: bool, k: nat)
    requires k < level && f in t && |t[f]| == ENTRIES && t[f][Digit(page, level)].Live()
    ensures Missing(t, f, level, page, user, k) ==
            Missing(t, t[f][Digit(page, level)].frame, level - 1, page, user, k)
    decreases k
  {
    hide Digit;
    if k > 0 {
      MissingBelow(t, f, level, page, user, k - 1);
    }
  }

  lemma {:induction false} MissingKept(s: Space, f: nat, level: nat, page: nat, user: bool, k: nat)
    requires Owned(s, f, level) && k < level && Ensure(s, f, Digit(page, level), user).1 != 0
    ensures Missing(Ensure(s, f, Digit(page, level), user).0.tables, f, level, page, user, k) ==
            Missing(s.tables, f, level, page, user, k)
    decreases k
  {
    hide Digit, Mark, Locked, Ensure, Owned;
    if k > 0 {
      EnsureMarks(s, f, level, Digit(page, level), user, page, k);
      MissingKept(s, f, level, page, user, k - 1);
    }
  }

  lemma LeafCost(s: Space, f: nat, page: nat, leaf: Entry)
    requires Owned(s, f, 0)
    ensures MapAt(s, f, 0, page, leaf).1 && MapAt(s, f, 0, page, leaf).0.frames == s.frames
  {
    OwnedRoot(s, f, 0);
  }

  /** map_in_pml4 succeeds exactly when the tables the page's path lacks can be allocated, and takes so many frames. */
  lemma {:induction false} MapNeeds(s: Space, f: nat, level: nat, page: nat, leaf: Entry)
    requires Owned(s, f, level)
    ensures var (d, ok) := MapAt(s, f, level, page, leaf);
            var needs := Missing(s.tables, f, level, page, leaf.flags.user, level);
            && (ok <==> needs <= FreeFrames(s.frames.used))
            && (ok ==> FreeFrames(d.frames.used) == FreeFrames(s.frames.used) - needs)
    decreases level
  {
    hide MapAt, Ensure, Owned, Grown, Tree, Reach, Under, Digit, Lookup, Mark, FreeFrames, Locked;
    if level == 0 {
      LeafCost(s, f, page, leaf);
    } else {
      var i, user := Digit(page, level), leaf.flags.user;
      MapAtStep(s, f, level, page, leaf);
      EnsureCost(s, f, level, page, user);
      EnsureKeeps(s, f, level, i, user, 0);
      var (e, next) := Ensure(s, f, i, user);
      if next != 0 {
        OwnedRoot(e, f, level);
        ChildOwned(e, f, level, i);
        MissingKept(s, f, level, page, user, level - 1);
        MissingBelow(e.tables, f, level, page, user, level - 1);
        MapNeeds(e, next, level - 1, page, leaf);
      }
    }
  }

  /** A mapping that succeeds raises the marks on its own path and no others. */
  lemma {:induction false} MapMarks(s: Space, f: nat, level: nat, page: nat, leaf: Entry, q: nat, k: nat)
    requires Owned(s, f, level) && 1 <= k <= level && MapAt(s, f, level, page, leaf).1
    ensures Mark(MapAt(s, f, level, page, leaf).0.tables, f, level, q, k) ==
            if SamePrefix(page, q, level, k) then Raised(Mark(s.tables, f, level, q, k), leaf.flags.user)
            else Mark(s.tables, f, level, q, k)
    ensures Locked(MapAt(s, f, level, page, leaf).0.tables, f, level, q, k) ==> Locked(s.tables, f, level, q, k)
    decreases level
  {
    hide MapAt, Ensure, Owned, Grown, Tree, Reach, Under, Digit, Lookup, Mark, Locked;
    var i, user := Digit(page, level), leaf.flags.user;
    MapAtStep(s, f, level, page, leaf);
    EnsureKeeps(s, f, level, i, user, 0);
    EnsureMarks(s, f, level, i, user, q, k);
    var (e, next) := Ensure(s, f, i, user);
    OwnedRoot(e, f, level);
    ChildOwned(e, f, level, i);
    MapAtKeeps(e, next, level - 1, page, leaf, 0);
    var d := MapAt(e, next, level - 1, page, leaf).0;
    MarkDescends(e, d, f, level, i, q, k);
    if Digit(q, level) == i && k < level {
      MapMarks(e, next, level - 1, page, leaf, q, k);
    }
  }

  /** Work below entry i shows in the marks of pages that go through it, below that level. */
  lemma MarkDescends(e: Space, d: Space, f: nat, level: nat, i: nat, q: nat, k: nat)
    requires Owned(e, f, level) && level > 0 && i < ENTRIES && e.tables[f][i].Live()
    requires Owned(d, e.tables[f][i].frame, level - 1) && Grown(e, d, e.tables[f][i].frame, level - 1)
    ensures Digit(q, level) != i || k == level ==>
              Mark(d.tables, f, level, q, k) == Mark(e.tables, f, level, q, k) &&
              Locked(d.tables, f, level, q, k) == Locked(e.tables, f, level, q, k)
    ensures Digit(q, level) == i && k != level ==>
              Mark(d.tables, f, level, q, k) == Mark(d.tables, e.tables[f][i].frame, level - 1, q, k) &&
              Mark(e.tables, f, level, q, k) == Mark(e.tables, e.tables[f][i].frame, level - 1, q, k) &&
              Locked(d.tables, f, level, q, k) == Locked(d.tables, e.tables[f][i].frame, level - 1, q, k) &&
              Locked(e.tables, f, level, q, k) == Locked(e.tables, e.tables[f][i].frame, level - 1, q, k)
  {
    OwnedRoot(e, f, level);
    hide Owned, Grown, Tree, Reach, Under, Digit, Replaced;
    Descended(e, d, f, level, i);
    if Digit(q, level) != i {
      MarkReplaced(e.tables, d.tables, f, level, i, q, k);
    }
  }
}
