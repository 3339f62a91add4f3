// How many tables a clone needs in a process of user pages, and a process that loses its page (src/kernel/vmm.c).
module CloneLoss {
  import opened Basics
  import opened Pmm
  import opened PageTable
  import opened AddressSpace
  import opened TableNeeds
  import opened CowTables
  import opened CowClone
  import opened CloneNeeds
  import Cow

  // ---- the number of tables when every page is a user page ----

  /** The entries of level k that the parent's cloned pages go through. */
  ghost function Prefixes(t: Tables, p: nat, k: nat): set<nat> {
    set v: nat | Cow.FIRST_PAGE <= v < Cow.LAST_PAGE && Clonable(t, p, v) :: Up(v, k)
  }

  function Tagged(k: nat, xs: set<nat>): set<(nat, nat, bool)> { set x | x in xs :: (k, x, true) }

  lemma {:induction false} TaggedSize(k: nat, xs: set<nat>)
    ensures |Tagged(k, xs)| == |xs|
    decreases |xs|
  {
    if xs != {} {
      var x :| x in xs;
      TaggedSize(k, xs - {x});
      assert Tagged(k, xs) == Tagged(k, xs - {x}) + {(k, x, true)};
    }
  }

  /** Then it is the number of distinct v / 512, v / 512^2 and v / 512^3 over the parent's pages v. */
  lemma UserNeeds(t: Tables, p: nat)
    requires forall v: nat :: UserPage(v) && Clonable(t, p, v) ==> UserLeaf(t, p, v)
    ensures |Needed(t, p, Cow.LAST_PAGE)| == |Prefixes(t, p, 1)| + |Prefixes(t, p, 2)| + |Prefixes(t, p, 3)|
  {
    hide Clonable, UserLeaf, Up, Has, Tagged;
    var a, b, c := Tagged(1, Prefixes(t, p, 1)), Tagged(2, Prefixes(t, p, 2)), Tagged(3, Prefixes(t, p, 3));
    AllTagged(t, p);
    TaggedSize(1, Prefixes(t, p, 1));
    TaggedSize(2, Prefixes(t, p, 2));
    TaggedSize(3, Prefixes(t, p, 3));
    TagsApart(1, Prefixes(t, p, 1), 2, Prefixes(t, p, 2));
    TagsApart(1, Prefixes(t, p, 1), 3, Prefixes(t, p, 3));
    TagsApart(2, Prefixes(t, p, 2), 3, Prefixes(t, p, 3));
    hide Needed, Prefixes;
    Together(a, b);
    Together(a + b, c);
  }

  lemma TagsApart(j: nat, xs: set<nat>, k: nat, ys: set<nat>)
    requires j != k
    ensures forall e :: e in Tagged(k, ys) ==> e !in Tagged(j, xs)
  {}

  lemma PrefixNeeded(t: Tables, p: nat, k: nat, x: nat)
    requires forall v: nat :: UserPage(v) && Clonable(t, p, v) ==> UserLeaf(t, p, v)
    requires 1 <= k <= TOP && x in Prefixes(t, p, k)
    ensures (k, x, true) in Needed(t, p, Cow.LAST_PAGE)
  {
    hide Clonable, UserLeaf, Up, Has;
    var v: nat :| Cow.FIRST_PAGE <= v < Cow.LAST_PAGE && Clonable(t, p, v) && Up(v, k) == x;
    assert UserPage(v);
    assert (k, Up(v, k), UserLeaf(t, p, v)) in Needed(t, p, Cow.LAST_PAGE);
  }

  lemma NeededPrefix(t: Tables, p: nat, e: (nat, nat, bool))
    requires forall v: nat :: UserPage(v) && Clonable(t, p, v) ==> UserLeaf(t, p, v)
    requires e in Needed(t, p, Cow.LAST_PAGE)
    ensures 1 <= e.0 <= TOP && e.2 && e.1 in Prefixes(t, p, e.0)
  {
    hide Clonable, UserLeaf, Up, Has;
    var k: nat, v: nat :| 1 <= k <= TOP && Cow.FIRST_PAGE <= v < Cow.LAST_PAGE && Clonable(t, p, v) &&
                          e == (k, Up(v, k), UserLeaf(t, p, v));
    assert UserPage(v);
    assert Up(v, k) in Prefixes(t, p, k);
  }

  lemma AllTagged(t: Tables, p: nat)
    requires forall v: nat :: UserPage(v) && Clonable(t, p, v) ==> UserLeaf(t, p, v)
    ensures Needed(t, p, Cow.LAST_PAGE) ==
            Tagged(1, Prefixes(t, p, 1)) + Tagged(2, Prefixes(t, p, 2)) + Tagged(3, Prefixes(t, p, 3))
  {
    hide Clonable, UserLeaf, Prefixes, Needed;
    var n := Needed(t, p, Cow.LAST_PAGE);
    forall k: nat, x | 1 <= k <= TOP && x in Prefixes(t, p, k)
      ensures (k, x, true) in n
    {
      PrefixNeeded(t, p, k, x);
    }
    forall e | e in n
      ensures e in Tagged(1, Prefixes(t, p, 1)) + Tagged(2, Prefixes(t, p, 2)) + Tagged(3, Prefixes(t, p, 3))
    {
      NeededPrefix(t, p, e);
      assert e == (e.0, e.1, true) && e in Tagged(e.0, Prefixes(t, p, e.0));
    }
  }

  // ---- a page lost ----

  /** Frame 0 is the kernel's, frame 1 an empty root, frame 2 a page's, and four frames are free. */
  function Young(): Space {
    Space(map[1 := EmptyTable()], Frames([true, true, true, false, false, false, false], [1, 1, 1, 0, 0, 0, 0], 1))
  }

  const LEAF: Entry := Entry(2, Flags(true, true, true, 0))

  /** The process maps its page, which takes three of them for tables. */
  function Ready(): Space { MapAt(Young(), 1, TOP, Cow.FIRST_PAGE, LEAF).0 }

  lemma FreeCons(b: bool, used: seq<bool>)
    ensures FreeFrames([b] + used) == (if b then 0 else 1) + FreeFrames(used)
  {
    assert ([b] + used)[1..] == used;
  }

  lemma FourFree()
    ensures FreeFrames([true, true, true, false, false, false, false]) == 4
  {
    hide FreeFrames;
    var one := [false] + [];
    var two := [false] + one;
    var three := [false] + two;
    var four := [false] + three;
    FreeCons(false, []);
    FreeCons(false, one);
    FreeCons(false, two);
    FreeCons(false, three);
    FreeCons(true, four);
    FreeCons(true, [true] + four);
    FreeCons(true, [true] + ([true] + four));
    NoFrames();
    assert [true] + ([true] + ([true] + four)) == [true, true, true, false, false, false, false];
  }

  lemma NoFrames()
    ensures FreeFrames([]) == 0
  {}

  lemma YoungOwned(v: nat)
    ensures Owned(Young(), 1, TOP) && Flat(Young().tables, 1, v) == None
  {
    EmptyLeads(Young().tables, 1, TOP, v);
    hide Tree, Reach;
  }

  lemma {:induction false} EmptyMarks(t: Tables, f: nat, page: nat, user: bool, k: nat)
    requires f in t && t[f] == EmptyTable()
    ensures Missing(t, f, TOP, page, user, k) == k && Mark(t, f, TOP, page, k) == 0
    decreases k
  {
    hide Digit;
    if k > 0 {
      EmptyMarks(t, f, page, user, k - 1);
    }
  }

  /** A path marked for user mode at every level is one the clone goes down. */
  lemma {:induction false} MarkedPath(t: Tables, f: nat, level: nat, page: nat)
    requires Tree(t, f, level) && forall k :: 1 <= k <= level ==> Mark(t, f, level, page, k) == 2
    ensures UserPath(t, f, level, page)
    decreases level
  {
    RootFacts(t, f, level, Digit(page, level));
    if level > 0 {
      var i := Digit(page, level);
      hide Digit;
      assert Mark(t, f, level, page, level) == 2;
      ChildTree(t, f, level, i);
      hide Tree, Reach, Under;
      var g, below := t[f][i].frame, level - 1;
      forall k | 1 <= k <= below
        ensures Mark(t, g, below, page, k) == 2
      {
        assert Mark(t, f, level, page, k) == 2;
      }
      MarkedPath(t, g, below, page);
    }
  }

  /** One frame is left, and the page is mapped through user tables. */
  lemma ReadyFacts(v: nat)
    requires UserPage(v)
    ensures var s := Ready();
            && Owned(s, 1, TOP) && FreeFrames(s.frames.used) == 1 && Clonable(s.tables, 1, Cow.FIRST_PAGE)
            && Flat(s.tables, 1, v) == if v == Cow.FIRST_PAGE then Some(LEAF) else None
  {
    hide MapAt, Owned, Lookup, Mark, FreeFrames, UserPath, Digit, Tree;
    var y, u := Young(), Cow.FIRST_PAGE;
    YoungOwned(v);
    FourFree();
    EmptyMarks(y.tables, 1, u, true, TOP);
    MapNeeds(y, 1, TOP, u, LEAF);
    MapAtKeeps(y, 1, TOP, u, LEAF, 0);
    MapsOne(y, 1, u, LEAF, v);
    MapsOne(y, 1, u, LEAF, u);
    forall k: nat | 1 <= k <= TOP
      ensures Mark(Ready().tables, 1, TOP, u, k) == 2
    {
      EmptyMarks(y.tables, 1, u, true, k);
      PrefixIs(u, u, k);
      MapMarks(y, 1, TOP, u, LEAF, u, k);
    }
    TreeOf(Ready(), 1, TOP);
    MarkedPath(Ready().tables, 1, TOP, u);
  }

  /** A process with one page forks while one frame is free: the clone succeeds and the child has no page at all. */
  lemma PageLost()
    ensures var s := Ready();
            && Owned(s, 1, TOP) && AllClonable(s.tables, 1) && SpaceOf(s.tables, 1).Keys == {Cow.FIRST_PAGE}
            && Clone(s, 1).Some? && SpaceOf(Clone(s, 1).value.0.tables, Clone(s, 1).value.1) == map[]
  {
    hide MapAt, Owned, Lookup, FreeFrames, UserPath, Needed, Clone, SpaceOf, Ready;
    var s := Ready();
    forall v | UserPage(v)
      ensures Flat(s.tables, 1, v) == if v == Cow.FIRST_PAGE then Some(LEAF) else None
    {
      ReadyFacts(v);
    }
    ReadyFacts(Cow.FIRST_PAGE);
    forall v
      ensures v in SpaceOf(s.tables, 1) <==> v == Cow.FIRST_PAGE
    {
      InUserSlots(s.tables, 1, v);
    }
    CloneTheorem(s, 1);
    SomethingNeeded(s.tables, 1, Cow.FIRST_PAGE);
    OnlyPage(SpaceOf(s.tables, 1), SpaceOf(Clone(s, 1).value.0.tables, Clone(s, 1).value.1));
  }

  lemma SomethingNeeded(t: Tables, p: nat, v: nat)
    requires UserPage(v) && Clonable(t, p, v) && UserLeaf(t, p, v)
    ensures |Needed(t, p, Cow.LAST_PAGE)| > 0
  {
    hide Clonable, UserLeaf, Up, Has;
    assert (1, Up(v, 1), UserLeaf(t, p, v)) in Needed(t, p, Cow.LAST_PAGE);
  }

  lemma OnlyPage(all: Cow.Space, child: Cow.Space)
    requires forall v :: v in all <==> v == Cow.FIRST_PAGE
    requires (forall v :: v in child ==> v in all && child[v] == all[v].Shared()) && child != Cow.ShareAll(all)
    ensures child == map[] && all.Keys == {Cow.FIRST_PAGE}
  {
    if Cow.FIRST_PAGE in child {
      FullPage(all, child);
    }
  }

  lemma FullPage(all: Cow.Space, child: Cow.Space)
    requires forall v :: v in all <==> v == Cow.FIRST_PAGE
    requires (forall v :: v in child ==> v in all && child[v] == all[v].Shared()) && Cow.FIRST_PAGE in child
    ensures child == Cow.ShareAll(all)
  {}
}
