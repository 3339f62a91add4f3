// When a clone gives the child every page: the tables the child needs, counted from the parent before the call, against
// the frames that are free (src/kernel/vmm.c).
module CloneNeeds {
  import opened Basics
  import opened Pmm
  import opened PageTable
  import opened AddressSpace
  import opened TableNeeds
  import opened CowTables
  import opened CowClone
  import Cow

  // ---- page number prefixes ----

  /** A page number without its last k base-512 digits: it names the entry the page goes through at level k. */
  function Up(v: nat, k: nat): nat
    decreases k
  {
    if k == 0 then v else Up(v / 512, k - 1)
  }

  lemma {:induction false} UpDigit(v: nat, k: nat)
    ensures Digit(v, k) == Up(v, k) % 512 && Up(v, k + 1) == Up(v, k) / 512
    decreases k
  {
    if k > 0 {
      UpDigit(v / 512, k - 1);
    }
  }

  lemma UpTop(v: nat)
    requires UserPage(v)
    ensures Up(v, TOP) < 512
  {
    assert Up(v, 3) == Up(v / 512, 2) == Up(v / 512 / 512, 1) == v / 512 / 512 / 512;
  }

  /** User pages go through the same entries down to level k exactly when these prefixes agree. */
  lemma {:induction false} PrefixIs(v: nat, q: nat, k: nat)
    requires UserPage(v) && UserPage(q) && k <= TOP
    ensures SamePrefix(v, q, TOP, k) <==> Up(v, k) == Up(q, k)
    decreases TOP - k
  {
    hide Digit, Up;
    UpDigit(v, k);
    UpDigit(q, k);
    if k == TOP {
      UpTop(v);
      UpTop(q);
    } else {
      PrefixIs(v, q, k + 1);
      PrefixStep(v, q, TOP, k);
    }
  }

  lemma {:induction false} PrefixStep(v: nat, q: nat, level: nat, k: nat)
    requires k < level
    ensures SamePrefix(v, q, level, k) <==> SamePrefix(v, q, level, k + 1) && Digit(v, k) == Digit(q, k)
    decreases level
  {
    hide Digit;
    if k + 1 < level {
      PrefixStep(v, q, level - 1, k);
    }
  }

  // ---- what the child needs ----

  /** The page's leaf is open to user mode. */
  predicate UserLeaf(t: Tables, p: nat, v: nat) { Flat(t, p, v).Some? && Flat(t, p, v).value.flags.user }

  /** Some page below hi that is cloned goes through entry x of level k; with `user` set, some user page. */
  ghost predicate Has(t: Tables, p: nat, hi: nat, k: nat, x: nat, user: bool) {
    exists u: nat :: UserPage(u) && u < hi && Clonable(t, p, u) && (user ==> UserLeaf(t, p, u)) && Up(u, k) == x
  }

  /** The mark of page q's path at level k once every page below hi has been cloned. */
  ghost function Due(t: Tables, p: nat, hi: nat, q: nat, k: nat): nat {
    if Has(t, p, hi, k, Up(q, k), true) then 2 else if Has(t, p, hi, k, Up(q, k), false) then 1 else 0
  }

  /**
   * The tables the child needs for the pages below hi, each named by its level, its prefix and whether it is a user
   * table: one per prefix, and one more where a kernel-only page comes before the first user page.
   */
  ghost function Needed(t: Tables, p: nat, hi: nat): set<(nat, nat, bool)> {
    set k: nat, v: nat | 1 <= k <= TOP && Cow.FIRST_PAGE <= v < hi && Clonable(t, p, v) &&
                         (UserLeaf(t, p, v) || !Has(t, p, v, k, Up(v, k), true)) ::
      (k, Up(v, k), UserLeaf(t, p, v))
  }

  /** What page v adds at levels k and below. */
  ghost function Added(t: Tables, p: nat, v: nat, k: nat): set<(nat, nat, bool)> {
    if k == 0 then {}
    else
      Added(t, p, v, k - 1) +
      if Due(t, p, v, v, k) < Want(UserLeaf(t, p, v)) then {(k, Up(v, k), UserLeaf(t, p, v))} else {}
  }

  lemma HasMore(t: Tables, p: nat, v: nat, k: nat, x: nat, user: bool)
    requires UserPage(v)
    ensures Has(t, p, v + 1, k, x, user) <==>
            Has(t, p, v, k, x, user) || (Clonable(t, p, v) && (user ==> UserLeaf(t, p, v)) && Up(v, k) == x)
  {
    hide Clonable, UserLeaf, Up;
  }

  /** Cloning one more page raises what is due on its own path. */
  lemma DueMore(t: Tables, p: nat, v: nat, q: nat, k: nat)
    requires UserPage(v)
    ensures Due(t, p, v + 1, q, k) ==
            if Clonable(t, p, v) && Up(v, k) == Up(q, k) then Raised(Due(t, p, v, q, k), UserLeaf(t, p, v))
            else Due(t, p, v, q, k)
  {
    hide Has, Clonable, UserLeaf, Up;
    HasMore(t, p, v, k, Up(q, k), true);
    HasMore(t, p, v, k, Up(q, k), false);
    if Has(t, p, v, k, Up(q, k), true) {
      HasAny(t, p, v, k, Up(q, k));
    }
  }

  lemma HasAny(t: Tables, p: nat, hi: nat, k: nat, x: nat)
    requires Has(t, p, hi, k, x, true)
    ensures Has(t, p, hi, k, x, false)
  {
    hide Clonable, UserLeaf, Up;
  }

  /** A table page v needs is already among the needed ones exactly when what is due there suffices. */
  lemma NeededAt(t: Tables, p: nat, v: nat, k: nat)
    requires UserPage(v) && 1 <= k <= TOP && (UserLeaf(t, p, v) || !Has(t, p, v, k, Up(v, k), true))
    ensures (k, Up(v, k), UserLeaf(t, p, v)) in Needed(t, p, v) <==> Due(t, p, v, v, k) >= Want(UserLeaf(t, p, v))
  {
    hide Clonable, UserLeaf, Up;
    var x, user := Up(v, k), UserLeaf(t, p, v);
    if Due(t, p, v, v, k) >= Want(user) {
      var w: nat :| UserPage(w) && w < v && Clonable(t, p, w) && (user ==> UserLeaf(t, p, w)) && Up(w, k) == x;
      assert UserLeaf(t, p, w) ==> Has(t, p, v, k, x, true);
      assert !user ==> !Has(t, p, w, k, x, true);
      assert (k, Up(w, k), UserLeaf(t, p, w)) in Needed(t, p, v);
    }
    if (k, x, user) in Needed(t, p, v) {
      var w: nat :| Cow.FIRST_PAGE <= w < v && Clonable(t, p, w) && UserLeaf(t, p, w) == user && Up(w, k) == x;
      assert UserPage(w);
      assert Has(t, p, v, k, x, user);
    }
  }

  lemma {:induction false} AddedSize(t: Tables, p: nat, v: nat, k: nat)
    requires UserPage(v) && k <= TOP
    ensures forall a :: a in Added(t, p, v, k) ==>
                          1 <= a.0 <= k && a == (a.0, Up(v, a.0), UserLeaf(t, p, v)) &&
                          Due(t, p, v, v, a.0) < Want(UserLeaf(t, p, v))
    ensures forall a :: a in Added(t, p, v, k) ==> a !in Needed(t, p, v)
    ensures forall j :: 1 <= j <= k && Due(t, p, v, v, j) < Want(UserLeaf(t, p, v)) ==>
                          (j, Up(v, j), UserLeaf(t, p, v)) in Added(t, p, v, k)
    decreases k
  {
    hide Clonable, UserLeaf, Up, Needed, Has;
    if k > 0 {
      AddedSize(t, p, v, k - 1);
      if Due(t, p, v, v, k) < Want(UserLeaf(t, p, v)) {
        NeededAt(t, p, v, k);
      }
    }
  }

  lemma NeededMore(t: Tables, p: nat, v: nat)
    requires UserPage(v)
    ensures Needed(t, p, v + 1) == if Clonable(t, p, v) then Needed(t, p, v) + Added(t, p, v, TOP) else Needed(t, p, v)
  {
    hide Clonable, UserLeaf, Up, Has, Added;
    AddedSize(t, p, v, TOP);
    var n, m, more := Needed(t, p, v), Needed(t, p, v + 1), Added(t, p, v, TOP);
    assert n <= m;
    if Clonable(t, p, v) {
      forall k: nat | 1 <= k <= TOP && (UserLeaf(t, p, v) || !Has(t, p, v, k, Up(v, k), true))
        ensures (k, Up(v, k), UserLeaf(t, p, v)) in n + more
      {
        NeededAt(t, p, v, k);
      }
      forall a | a in more
        ensures a in m
      {
        assert a == (a.0, Up(v, a.0), UserLeaf(t, p, v));
      }
      assert m <= n + more;
    }
  }

  // ---- one step ----

  lemma {:induction false} MissingSame(t: Tables, u: Tables, c: nat, v: nat, user: bool, k: nat)
    requires forall j :: 1 <= j <= k ==> Mark(u, c, TOP, v, j) == Mark(t, c, TOP, v, j)
    ensures Missing(u, c, TOP, v, user, k) == Missing(t, c, TOP, v, user, k)
    decreases k
  {
    hide Mark;
    if k > 0 {
      MissingSame(t, u, c, v, user, k - 1);
    }
  }

  /** Write-protecting the parent's leaf leaves the child's tables alone. */
  lemma GuardMarks(s: Space, p: nat, c: nat, v: nat, leaf: Entry, q: nat, k: nat)
    requires Apart(s, p, c) && UserPage(v) && UserPath(s.tables, p, TOP, v)
    ensures Mark(InPlace(s.tables, p, TOP, v, leaf), c, TOP, q, k) == Mark(s.tables, c, TOP, q, k)
  {
    Mirror(s, p, c);
    ParentTree(s, p, c);
    SlotOf(v);
    InPlaceIsMap(s, p, TOP, v, leaf);
    MapConfined(s, p, v, leaf);
    TreeOf(s, c, TOP);
    ReachStored(s.tables, c, TOP);
    var d := MapAt(s, p, TOP, v, leaf).0;
    hide Tree, Reach, Under, MapAt, InPlace, UserPath, Digit, Owned, Mark;
    assert forall g :: g in Reach(s.tables, c, TOP) ==> g in s.tables && !Unused(s, g) && g != p;
    MarkLocal(s.tables, d.tables, c, TOP, q, k);
  }

  /** The tables between the two halves of a step. */
  function Guarding(s: Space, p: nat, v: nat): Space
    requires Clonable(s.tables, p, v)
  {
    var e := Flat(s.tables, p, v).value;
    if e.flags.writable then s.(tables := InPlace(s.tables, p, TOP, v, Guard(e))) else s
  }

  lemma GuardingFacts(s: Space, p: nat, c: nat, v: nat, q: nat, k: nat)
    requires Apart(s, p, c) && UserPage(v) && Clonable(s.tables, p, v)
    ensures var d, e := Guarding(s, p, v), Guard(Flat(s.tables, p, v).value);
            && CloneStep(s, p, c, v) == MapAt(d, c, TOP, v, e) && e.flags.user == UserLeaf(s.tables, p, v)
            && Apart(d, p, c) && Owned(d, c, TOP) && d.frames == s.frames
            && Mark(d.tables, c, TOP, q, k) == Mark(s.tables, c, TOP, q, k)
  {
    hide Apart, Owned, UserPath, MapAt, InPlace, Lookup, Mark;
    GuardStep(s, p, c, v, v);
    ParentTree(Guarding(s, p, v), p, c);
    GuardMarks(s, p, c, v, Guard(Flat(s.tables, p, v).value), q, k);
  }

  /** The child gets a page exactly when the tables its path lacks in the child fit the free frames. */
  lemma StepNeeds(s: Space, p: nat, c: nat, v: nat)
    requires Apart(s, p, c) && UserPage(v) && Clonable(s.tables, p, v)
    ensures var (d, ok) := CloneStep(s, p, c, v);
            var needs := Missing(s.tables, c, TOP, v, UserLeaf(s.tables, p, v), TOP);
            && (ok <==> needs <= FreeFrames(s.frames.used))
            && (ok ==> FreeFrames(d.frames.used) == FreeFrames(s.frames.used) - needs)
  {
    hide Apart, Owned, MapAt, Mark, CloneStep, Clonable, Guarding, Guard, Lookup, UserLeaf, FreeFrames;
    MappedHere(s.tables, p, v);
    var d, e := Guarding(s, p, v), Guard(Flat(s.tables, p, v).value);
    forall j: nat | 1 <= j <= TOP
      ensures Mark(d.tables, c, TOP, v, j) == Mark(s.tables, c, TOP, v, j)
    {
      GuardingFacts(s, p, c, v, v, j);
    }
    GuardingFacts(s, p, c, v, v, 1);
    MissingSame(s.tables, d.tables, c, v, e.flags.user, TOP);
    MapNeeds(d, c, TOP, v, e);
  }

  lemma MappedHere(t: Tables, p: nat, v: nat)
    requires Clonable(t, p, v)
    ensures Flat(t, p, v).Some?
  {}

  /** A page the child got raises the marks on its path and no others. */
  lemma StepMarks(s: Space, p: nat, c: nat, v: nat, q: nat, k: nat)
    requires Apart(s, p, c) && UserPage(v) && UserPage(q) && Clonable(s.tables, p, v) && 1 <= k <= TOP
    requires CloneStep(s, p, c, v).1
    ensures Mark(CloneStep(s, p, c, v).0.tables, c, TOP, q, k) ==
            if Up(v, k) == Up(q, k) then Raised(Mark(s.tables, c, TOP, q, k), UserLeaf(s.tables, p, v))
            else Mark(s.tables, c, TOP, q, k)
  {
    hide Apart, Owned, MapAt, Mark, CloneStep, Clonable, Guarding, Guard, Lookup, UserLeaf, Up, SamePrefix;
    MappedHere(s.tables, p, v);
    GuardingFacts(s, p, c, v, q, k);
    PrefixIs(v, q, k);
    MapMarks(Guarding(s, p, v), c, TOP, v, Guard(Flat(s.tables, p, v).value), q, k);
  }

  // ---- the whole loop ----

  /** The root's user slots are empty. */
  ghost predicate NoTables(t: Tables, c: nat) {
    c in t && |t[c]| == ENTRIES && forall i: nat :: UserSlot(i) ==> !t[c][i].Live()
  }

  /** The child got every page below hi that is cloned at all. */
  ghost predicate AllGot(s: Space, p: nat, c: nat, hi: nat) {
    forall u: nat :: UserPage(u) && u < hi && Clonable(s.tables, p, u) ==> Got(s, p, c, u)
  }

  /** When the loop comes to page v the parent still has it as before the clone. */
  lemma StillThere(s: Space, p: nat, c: nat, v: nat)
    requires Apart(s, p, c) && UserPage(v)
    ensures var e := CloneTo(s, p, c, v);
            && Apart(e, p, c) && (Clonable(e.tables, p, v) <==> Clonable(s.tables, p, v))
            && (UserLeaf(e.tables, p, v) <==> UserLeaf(s.tables, p, v))
  {
    hide Apart, UserPath, Lookup, CloneTo, Got;
    CloneExactly(s, p, c, v, v);
  }

  lemma NothingYet(t: Tables, p: nat, c: nat, hi: nat, q: nat, k: nat)
    requires NoTables(t, c) && hi <= Cow.FIRST_PAGE && UserPage(q)
    ensures Mark(t, c, TOP, q, k) == 0 && Due(t, p, hi, q, k) == 0 && Needed(t, p, hi) == {}
  {
    hide Digit, Clonable, UserLeaf, Up;
    SlotOf(q);
  }

  /** As long as nothing is lost the child's tables are those the cloned pages are due. */
  lemma {:induction false} CloneMarks(s: Space, p: nat, c: nat, hi: nat, q: nat, k: nat)
    requires Apart(s, p, c) && NoTables(s.tables, c) && AllGot(s, p, c, hi)
    requires hi <= Cow.LAST_PAGE && UserPage(q) && 1 <= k <= TOP
    ensures Mark(CloneTo(s, p, c, hi).tables, c, TOP, q, k) == Due(s.tables, p, hi, q, k)
    decreases hi
  {
    hide Apart, NoTables, Mark, Due, Clonable, UserLeaf, Up, CloneStep;
    if hi <= Cow.FIRST_PAGE {
      NothingYet(s.tables, p, c, hi, q, k);
    } else {
      var v := hi - 1;
      CloneMarks(s, p, c, v, q, k);
      StillThere(s, p, c, v);
      DueMore(s.tables, p, v, q, k);
      var e := CloneTo(s, p, c, v);
      if Clonable(s.tables, p, v) {
        assert Got(s, p, c, v);
        StepMarks(e, p, c, v, q, k);
      } else {
        NotCloned(e, p, c, v);
      }
    }
  }

  lemma NotCloned(s: Space, p: nat, c: nat, v: nat)
    requires !Clonable(s.tables, p, v)
    ensures CloneStep(s, p, c, v) == (s, false)
  {}

  lemma {:induction false} AddedCount(t: Tables, p: nat, d: Tables, c: nat, v: nat, k: nat)
    requires UserPage(v) && k <= TOP && forall j: nat :: 1 <= j <= k ==> Mark(d, c, TOP, v, j) == Due(t, p, v, v, j)
    ensures |Added(t, p, v, k)| == Missing(d, c, TOP, v, UserLeaf(t, p, v), k)
    decreases k
  {
    hide Mark, Due, UserLeaf, Up;
    if k > 0 {
      AddedCount(t, p, d, c, v, k - 1);
      AddedLow(t, p, v, k - 1);
    }
  }

  lemma {:induction false} AddedLow(t: Tables, p: nat, v: nat, k: nat)
    ensures forall a :: a in Added(t, p, v, k) ==> a.0 <= k
    decreases k
  {
    hide Due, UserLeaf, Up;
    if k > 0 {
      AddedLow(t, p, v, k - 1);
    }
  }

  /** At a page that is cloned, with nothing lost before it: what it costs. */
  lemma PageCost(s: Space, p: nat, c: nat, v: nat)
    requires Apart(s, p, c) && NoTables(s.tables, c) && AllGot(s, p, c, v) && UserPage(v) && Clonable(s.tables, p, v)
    ensures var e := CloneTo(s, p, c, v);
            var more := |Added(s.tables, p, v, TOP)|;
            && (Got(s, p, c, v) <==> more <= FreeFrames(e.frames.used))
            && (Got(s, p, c, v) ==>
                  FreeFrames(CloneTo(s, p, c, v + 1).frames.used) == FreeFrames(e.frames.used) - more)
            && |Needed(s.tables, p, v + 1)| == |Needed(s.tables, p, v)| + more
  {
    hide Apart, NoTables, Mark, Due, Clonable, UserLeaf, Up, CloneStep, Added, Needed, FreeFrames, Missing, AllGot;
    var e := CloneTo(s, p, c, v);
    StillThere(s, p, c, v);
    forall j: nat | 1 <= j <= TOP
      ensures Mark(e.tables, c, TOP, v, j) == Due(s.tables, p, v, v, j)
    {
      CloneMarks(s, p, c, v, v, j);
    }
    AddedCount(s.tables, p, e.tables, c, v, TOP);
    StepNeeds(e, p, c, v);
    NeededMore(s.tables, p, v);
    AddedSize(s.tables, p, v, TOP);
    Together(Needed(s.tables, p, v), Added(s.tables, p, v, TOP));
  }

  lemma Together<T>(a: set<T>, b: set<T>)
    requires forall x :: x in b ==> x !in a
    ensures |a + b| == |a| + |b|
  {
    assert a !! b;
  }

  /** While nothing is lost, the frames taken are the tables needed so far. */
  lemma {:induction false} CloneCost(s: Space, p: nat, c: nat, hi: nat)
    requires Apart(s, p, c) && NoTables(s.tables, c) && AllGot(s, p, c, hi) && hi <= Cow.LAST_PAGE
    ensures FreeFrames(CloneTo(s, p, c, hi).frames.used) + |Needed(s.tables, p, hi)| == FreeFrames(s.frames.used)
    decreases hi
  {
    hide Apart, NoTables, Clonable, CloneStep, Added, Needed, FreeFrames, Got;
    if hi <= Cow.FIRST_PAGE {
      NothingYet(s.tables, p, c, hi, Cow.FIRST_PAGE, 1);
    } else {
      var v := hi - 1;
      CloneCost(s, p, c, v);
      if Clonable(s.tables, p, v) {
        PageCost(s, p, c, v);
      } else {
        StillThere(s, p, c, v);
        NeededMore(s.tables, p, v);
        NotCloned(CloneTo(s, p, c, v), p, c, v);
      }
    }
  }

  lemma NeededGrows(t: Tables, p: nat, lo: nat, hi: nat)
    requires lo <= hi
    ensures |Needed(t, p, lo)| <= |Needed(t, p, hi)|
  {
    hide Clonable, UserLeaf, Up, Has;
    SubsetSize(Needed(t, p, lo), Needed(t, p, hi));
  }

  /** The first page lost, if any is. */
  lemma FirstLost(s: Space, p: nat, c: nat, hi: nat) returns (v: nat)
    requires !AllGot(s, p, c, hi)
    ensures UserPage(v) && v < hi && Clonable(s.tables, p, v) && !Got(s, p, c, v) && AllGot(s, p, c, v)
    decreases hi
  {
    hide Clonable, Got;
    if hi > 0 && !AllGot(s, p, c, hi - 1) {
      v := FirstLost(s, p, c, hi - 1);
    } else {
      v := hi - 1;
    }
  }

  /** The child gets every page exactly when the tables it needs fit the free frames. */
  lemma NothingLost(s: Space, p: nat, c: nat)
    requires Apart(s, p, c) && NoTables(s.tables, c)
    ensures AllGot(s, p, c, Cow.LAST_PAGE) <==>
            |Needed(s.tables, p, Cow.LAST_PAGE)| <= FreeFrames(s.frames.used)
  {
    hide Apart, NoTables, Clonable, CloneTo, Needed, FreeFrames, Got, AllGot, Added;
    if AllGot(s, p, c, Cow.LAST_PAGE) {
      CloneCost(s, p, c, Cow.LAST_PAGE);
    } else {
      var v := FirstLost(s, p, c, Cow.LAST_PAGE);
      CloneCost(s, p, c, v);
      PageCost(s, p, c, v);
      NeededGrows(s.tables, p, v + 1, Cow.LAST_PAGE);
    }
  }

  // ---- the call ----

  /** vmm_clone_address_space: NULL without a frame for the root, else the tables afterwards and the child's root. */
  function Clone(s: Space, p: nat): Option<(Space, nat)> {
    var c := FirstFree(s.frames.used);
    if p !in s.tables || |s.tables[p]| != ENTRIES || c >= |s.frames.used| || c >= |s.frames.refs| then None
    else Some((CloneTo(CloneStart(s, p, c), p, c, Cow.LAST_PAGE), c))
  }

  /** Taking the child's root costs one frame and changes nothing for the parent. */
  lemma StartKeeps(s: Space, p: nat, q: nat)
    requires Owned(s, p, TOP) && FirstFree(s.frames.used) < |s.frames.used|
    ensures var c := FirstFree(s.frames.used);
            && p in s.tables && |s.tables[p]| == ENTRIES && c < |s.frames.refs|
            && var d := CloneStart(s, p, c);
            && Flat(d.tables, p, q) == Flat(s.tables, p, q)
            && (UserPath(d.tables, p, TOP, q) <==> UserPath(s.tables, p, TOP, q))
            && NoTables(d.tables, c) && FreeFrames(d.frames.used) == FreeFrames(s.frames.used) - 1
  {
    var c := FirstFree(s.frames.used);
    OwnedRoot(s, p, TOP);
    FoundFrame(s, p, TOP);
    FreeTaken(s.frames.used, c);
    TreeOf(s, p, TOP);
    ReachStored(s.tables, p, TOP);
    hide Reach, Under, Tree, FirstFree, Lookup, UserPath, FreeFrames;
    var d := CloneStart(s, p, c);
    assert forall g :: g in Reach(s.tables, p, TOP) ==> g in s.tables && g != c;
    Local(s.tables, d.tables, p, TOP, q);
    PathLocal(s.tables, d.tables, p, TOP, q);
  }

  lemma SameHas(t: Tables, u: Tables, p: nat, hi: nat, k: nat, x: nat, user: bool)
    requires forall v: nat :: UserPage(v) ==> (Clonable(u, p, v) <==> Clonable(t, p, v))
    requires forall v: nat :: UserPage(v) ==> (UserLeaf(u, p, v) <==> UserLeaf(t, p, v))
    ensures Has(u, p, hi, k, x, user) <==> Has(t, p, hi, k, x, user)
  {
    hide Clonable, UserLeaf, Up;
  }

  lemma SameNeeded(t: Tables, u: Tables, p: nat)
    requires forall v: nat :: UserPage(v) ==> (Clonable(u, p, v) <==> Clonable(t, p, v))
    requires forall v: nat :: UserPage(v) ==> (UserLeaf(u, p, v) <==> UserLeaf(t, p, v))
    ensures Needed(u, p, Cow.LAST_PAGE) == Needed(t, p, Cow.LAST_PAGE)
  {
    hide Clonable, UserLeaf, Up, Has;
    forall k: nat, v: nat
      ensures Has(u, p, v, k, Up(v, k), true) <==> Has(t, p, v, k, Up(v, k), true)
    {
      SameHas(t, u, p, v, k, Up(v, k), true);
    }
    forall v: nat | Cow.FIRST_PAGE <= v < Cow.LAST_PAGE
      ensures (Clonable(u, p, v) <==> Clonable(t, p, v)) && (UserLeaf(u, p, v) <==> UserLeaf(t, p, v))
    {
      assert UserPage(v);
    }
  }

  /** The parent's space after a clone: the pages that are cloned are shared, the others as they were. */
  function Protected(t: Tables, p: nat): Cow.Space {
    map v | v in SpaceOf(t, p) :: if UserPath(t, p, TOP, v) then SpaceOf(t, p)[v].Shared() else SpaceOf(t, p)[v]
  }

  lemma InUserSlots(t: Tables, f: nat, v: nat)
    ensures v in SpaceOf(t, f) ==> UserPage(v) && Flat(t, f, v).Some?
    ensures UserPage(v) && Flat(t, f, v).Some? ==> v in SpaceOf(t, f)
  {}

  /** What one clone leaves in the two spaces. */
  lemma ClonedSpaces(s: Space, p: nat, c: nat)
    requires Apart(s, p, c) && SpaceOf(s.tables, c) == map[]
    ensures var d, all := CloneTo(s, p, c, Cow.LAST_PAGE), SpaceOf(s.tables, p);
            && Apart(d, p, c) && SpaceOf(d.tables, p) == Protected(s.tables, p)
            && (forall v :: v in SpaceOf(d.tables, c) ==> v in all && SpaceOf(d.tables, c)[v] == all[v].Shared())
            && (SpaceOf(d.tables, c) == Cow.ShareAll(all) <==>
                  AllClonable(s.tables, p) && AllGot(s, p, c, Cow.LAST_PAGE))
  {
    hide Apart, UserPath, CloneTo, Got, Lookup, SpaceOf;
    var d, all := CloneTo(s, p, c, Cow.LAST_PAGE), SpaceOf(s.tables, p);
    CloneExactly(s, p, c, Cow.LAST_PAGE, Cow.FIRST_PAGE);
    forall v
      ensures v in all <==> UserPage(v) && Flat(s.tables, p, v).Some?
      ensures v in SpaceOf(d.tables, p) <==> v in all
      ensures v in all ==>
                SpaceOf(d.tables, p)[v] == if UserPath(s.tables, p, TOP, v) then all[v].Shared() else all[v]
      ensures v in SpaceOf(d.tables, c) <==> UserPage(v) && Got(s, p, c, v)
      ensures v in SpaceOf(d.tables, c) ==>
                v in all && UserPath(s.tables, p, TOP, v) && SpaceOf(d.tables, c)[v] == all[v].Shared()
    {
      InUserSlots(s.tables, p, v);
      InUserSlots(d.tables, p, v);
      InUserSlots(d.tables, c, v);
      if UserPage(v) {
        ClonedAt(s, p, c, v);
      }
    }
    assert SpaceOf(d.tables, p) == Protected(s.tables, p);
    EveryPage(s, p, c, SpaceOf(d.tables, c));
  }

  /** The child has every page exactly when every page could be cloned and the child got all that could. */
  lemma EveryPage(s: Space, p: nat, c: nat, child: Cow.Space)
    requires forall v :: v in SpaceOf(s.tables, p) <==> UserPage(v) && Flat(s.tables, p, v).Some?
    requires forall v :: v in child <==> UserPage(v) && Got(s, p, c, v)
    requires forall v :: v in child ==> v in SpaceOf(s.tables, p) && UserPath(s.tables, p, TOP, v)
    requires forall v :: v in child ==> child[v] == SpaceOf(s.tables, p)[v].Shared()
    ensures child == Cow.ShareAll(SpaceOf(s.tables, p)) <==> AllClonable(s.tables, p) && AllGot(s, p, c, Cow.LAST_PAGE)
  {
    hide UserPath, Got, Lookup, SpaceOf;
    var all := SpaceOf(s.tables, p);
    if AllClonable(s.tables, p) && AllGot(s, p, c, Cow.LAST_PAGE) {
      forall v | v in all
        ensures v in child
      {
        assert Clonable(s.tables, p, v);
      }
      assert child == Cow.ShareAll(all);
    }
    if child == Cow.ShareAll(all) {
      forall v | UserPage(v) && Flat(s.tables, p, v).Some?
        ensures Got(s, p, c, v) && UserPath(s.tables, p, TOP, v)
      {
        assert v in Cow.ShareAll(all);
      }
    }
  }

  /**
   * A clone gives the child every page of the parent exactly when every page is mapped through user tables and the free
   * frames are enough for the child's root and the tables its pages need. Otherwise it returns a child with pages
   * missing, or NULL if not even the root can be had; the parent's pages are write-protected all the same.
   */
  lemma CloneTheorem(s: Space, p: nat)
    requires Owned(s, p, TOP)
    ensures var r, all, free := Clone(s, p), SpaceOf(s.tables, p), FreeFrames(s.frames.used);
            && (r.Some? <==> free > 0)
            && (r.Some? ==>
                  && Apart(r.value.0, p, r.value.1) && SpaceOf(r.value.0.tables, p) == Protected(s.tables, p)
                  && forall v :: v in SpaceOf(r.value.0.tables, r.value.1) ==>
                       v in all && SpaceOf(r.value.0.tables, r.value.1)[v] == all[v].Shared())
            && (r.Some? && SpaceOf(r.value.0.tables, r.value.1) == Cow.ShareAll(all) <==>
                  AllClonable(s.tables, p) && 1 + |Needed(s.tables, p, Cow.LAST_PAGE)| <= free)
  {
    var c := FirstFree(s.frames.used);
    NoneFree(s.frames.used);
    hide FreeFrames, FirstFree, Needed;
    if c < |s.frames.used| {
      hide Owned, Apart, UserPath, CloneTo, Lookup, SpaceOf, CloneStart, NoTables;
      hide Protected, AllClonable, AllGot, Cow.ShareAll;
      StartApart(s, p);
      StartKeeps(s, p, 0);
      var d := CloneStart(s, p, c);
      ClonedSpaces(d, p, c);
      NothingLost(d, p, c);
      SameParent(s.tables, d.tables, p, c, s);
    }
  }

  lemma SameParent(t: Tables, u: Tables, p: nat, c: nat, s: Space)
    requires Owned(s, p, TOP) && c == FirstFree(s.frames.used) < |s.frames.used| && t == s.tables
    requires p in t && |t[p]| == ENTRIES && c < |s.frames.refs| && u == CloneStart(s, p, c).tables
    ensures SpaceOf(u, p) == SpaceOf(t, p) && Protected(u, p) == Protected(t, p)
    ensures (AllClonable(u, p) <==> AllClonable(t, p)) && Needed(u, p, Cow.LAST_PAGE) == Needed(t, p, Cow.LAST_PAGE)
  {
    hide Owned, FirstFree, UserPath, Lookup, Needed, CloneStart;
    forall v: nat
      ensures Flat(u, p, v) == Flat(t, p, v) && (UserPath(u, p, TOP, v) <==> UserPath(t, p, TOP, v))
    {
      StartKeeps(s, p, v);
    }
    SameNeeded(t, u, p);
    assert SpaceOf(u, p) == SpaceOf(t, p);
    assert Protected(u, p) == Protected(t, p);
  }
}
