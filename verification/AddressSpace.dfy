// An address space by virtual address: the kernel's walks and mappings, and the flat map they implement.
module AddressSpace {
  import opened Basics
  import opened Pmm
  import opened PageTable

  /** The page a virtual address lies in; bits 48 and up take no part. */
  function PageOf(vaddr: nat): (p: nat)
    ensures p < PAGES
  {
    (vaddr / 4096) % 0x10_0000_0000
  }

  /** The table index the kernel extracts for a level: nine address bits from bit 12 + 9 * level on. */
  function Index(vaddr: nat, level: nat): (i: nat)
    requires level <= TOP
    ensures i < ENTRIES
  {
    if level == 3 then (vaddr / 0x80_0000_0000) % 512
    else if level == 2 then (vaddr / 0x4000_0000) % 512
    else if level == 1 then (vaddr / 0x20_0000) % 512
    else (vaddr / 0x1000) % 512
  }

  lemma IndexIsDigit(vaddr: nat, level: nat)
    requires level <= TOP
    ensures Index(vaddr, level) == Digit(PageOf(vaddr), level)
  {
    var a := vaddr / 4096;
    var p := PageOf(vaddr);
    Peel(a, 0x800_0000);
    Peel(a / 512, 0x4_0000);
    Peel(a / 512 / 512, 512);
    DigitStep(p, level);
    DigitStep(p / 512, level - 1);
    DigitStep(p / 512 / 512, level - 2);
    DivisionChain(vaddr);
  }

  lemma DigitStep(p: nat, level: int)
    ensures level > 0 ==> Digit(p, level) == Digit(p / 512, level - 1)
    ensures level == 0 ==> Digit(p, level) == p % 512
  {}

  /** Splitting off the low nine bits commutes with cutting the high ones. */
  lemma Peel(a: nat, n: nat)
    requires n > 0
    ensures a % (512 * n) % 512 == a % 512 && a % (512 * n) / 512 == a / 512 % n
  {
    var q, r := a / 512, a % 512;
    DivMod(q, n);
    var h, m := q / n, q % n;
    assert h * (512 * n) == 512 * (h * n);
    DivIs(a, 512 * n, h, 512 * m + r);
    DivIs(512 * m + r, 512, m, r);
  }

  lemma DivisionChain(vaddr: nat)
    ensures vaddr / 0x20_0000 == vaddr / 4096 / 512
    ensures vaddr / 0x4000_0000 == vaddr / 4096 / 512 / 512
    ensures vaddr / 0x80_0000_0000 == vaddr / 4096 / 512 / 512 / 512
  {}

  /** Pages below 2^36 that agree in all four digits are the same page. */
  lemma SamePathSamePage(p: nat, q: nat)
    requires p < PAGES && q < PAGES
    ensures SamePath(p, q, TOP) <==> p == q
  {
    assert SamePath(p, q, 3) <==> Digit(p, 3) == Digit(q, 3) && SamePath(p, q, 2);
    assert SamePath(p, q, 2) <==> Digit(p, 2) == Digit(q, 2) && SamePath(p, q, 1);
    assert SamePath(p, q, 1) <==> Digit(p, 1) == Digit(q, 1) && SamePath(p, q, 0);
    Digits(p);
    Digits(q);
  }

  lemma Digits(p: nat)
    requires p < PAGES
    ensures p == ((Digit(p, 3) * 512 + Digit(p, 2)) * 512 + Digit(p, 1)) * 512 + Digit(p, 0)
  {
    assert Digit(p, 1) == (p / 512) % 512;
    assert Digit(p, 2) == (p / 512 / 512) % 512;
    assert Digit(p, 3) == (p / 512 / 512 / 512) % 512;
  }

  /** The flat map: what leaf entry, if any, each page translates by. */
  function Flat(t: Tables, root: nat, page: nat): Option<Entry> { Lookup(t, root, TOP, page) }

  /** map_in_pml4 on a tree of tables is an update of the flat map at one page, or at none when it fails. */
  lemma MapRefinesFlat(s: Space, root: nat, vaddr: nat, leaf: Entry, q: nat)
    requires Owned(s, root, TOP) && q < PAGES
    ensures var (d, ok) := MapAt(s, root, TOP, PageOf(vaddr), leaf);
            && Owned(d, root, TOP)
            && Flat(d.tables, root, q) ==
               if ok && q == PageOf(vaddr) then (if leaf.flags.present then Some(leaf) else None)
               else Flat(s.tables, root, q)
  {
    hide MapAt, Owned, Lookup, SamePath;
    MapAtKeeps(s, root, TOP, PageOf(vaddr), leaf, q);
    SamePathSamePage(PageOf(vaddr), q);
  }

  class Mmu {
    const pmm: Manager
    const root: nat
    var tables: Tables

    ghost function S(): Space
      reads this, pmm
    {
      Space(tables, pmm.frames)
    }

    ghost predicate Valid()
      reads this, pmm
    {
      Owned(S(), root, TOP)
    }

    constructor (pmm: Manager, root: nat, tables: Tables)
      requires Owned(Space(tables, pmm.frames), root, TOP)
      ensures Valid() && this.pmm == pmm && this.root == root && this.tables == tables
    {
      this.pmm, this.root, this.tables := pmm, root, tables;
    }

    /** ensure_next_table. */
    method NextTable(table: nat, index: nat, user: bool) returns (next: nat)
      requires Consistent(pmm.frames) && pmm.frames.reserved > 0 && index < ENTRIES
      requires table in tables ==> |tables[table]| == ENTRIES
      requires table in tables && tables[table][index].Live() ==> tables[table][index].frame in tables
      requires table in tables ==> table < |pmm.frames.used| && pmm.frames.used[table]
      modifies this, pmm
      ensures (S(), next) == Ensure(old(S()), table, index, user)
    {
      hide FirstFree;
      if table == 0 || table !in tables {
        return 0;
      }
      if tables[table][index].flags.present && tables[table][index].frame == 0 {
        tables := PutEntry(tables, table, index, NONE);
      } else {
        SameEntry(S(), table, index);
      }
      var entry := tables[table][index];
      if entry.flags.present && (entry.flags.user || !user) {
        return entry.frame;
      }
      ghost var n := FirstFree(pmm.frames.used);
      if n < |pmm.frames.used| {
        FrameNumber(n);
      }
      var address := pmm.Alloc();
      if address == 0 {
        return 0;
      }
      next := address / PAGE_SIZE;
      var content := if entry.flags.present then tables[entry.frame] else EmptyTable();
      tables := PutEntry(tables, table, index, Entry(next, TableFlags(user)))[next := content];
    }

    /** One level of map_in_pml4: the next table is found or made, and is the root of the tree below. */
    method Descend(table: nat, level: nat, vaddr: nat, user: bool) returns (next: nat)
      requires 0 < level <= TOP && Owned(S(), table, level)
      modifies this, pmm
      ensures (S(), next) == Ensure(old(S()), table, Digit(PageOf(vaddr), level), user)
      ensures next != 0 ==> Owned(S(), next, level - 1)
    {
      IndexIsDigit(vaddr, level);
      TableReady(S(), table, level, Index(vaddr, level));
      EnsureKeeps(S(), table, level, Index(vaddr, level), user, 0);
      hide Owned, Ensure, Grown, Tree;
      next := NextTable(table, Index(vaddr, level), user);
      if next != 0 {
        ChildOwned(S(), table, level, Index(vaddr, level));
      }
    }

    /** map_in_pml4. */
    method Map(vaddr: nat, leaf: Entry) returns (ok: bool)
      requires Valid()
      modifies this, pmm
      ensures Valid()
      ensures (S(), ok) == MapAt(old(S()), root, TOP, PageOf(vaddr), leaf)
    {
      hide Owned, Ensure, Grown, Lookup, MapAt, PageOf, Digit, Index, Written;
      ghost var s, p := S(), PageOf(vaddr);
      MapAtKeeps(s, root, TOP, p, leaf, 0);
      MapAtStep(s, root, 3, p, leaf);
      var pdpt := Descend(root, 3, vaddr, leaf.flags.user);
      if pdpt == 0 {
        return false;
      }
      MapAtStep(S(), pdpt, 2, p, leaf);
      var pd := Descend(pdpt, 2, vaddr, leaf.flags.user);
      if pd == 0 {
        return false;
      }
      MapAtStep(S(), pd, 1, p, leaf);
      var pt := Descend(pd, 1, vaddr, leaf.flags.user);
      if pt == 0 {
        return false;
      }
      OwnedRoot(S(), pt, 0);
      IndexIsDigit(vaddr, 0);
      MapAtLeaf(S(), pt, p, leaf);
      tables := PutEntry(tables, pt, Index(vaddr, 0), leaf);
      ok := true;
    }

    /** vmm_is_mapped walks by address bits; it answers whether the flat map has the page. */
    method IsMapped(vaddr: nat) returns (mapped: bool)
      requires Valid()
      ensures mapped == Flat(tables, root, PageOf(vaddr)).Some?
    {
      var leaf := Walk(vaddr);
      mapped := leaf.Some?;
    }

    /** vmm_virt_to_phys: the frame's address plus the offset in the page, 0 when unmapped. */
    method VirtToPhys(vaddr: nat) returns (paddr: nat)
      requires Valid()
      ensures paddr == match Flat(tables, root, PageOf(vaddr))
                       case None => 0
                       case Some(e) => e.frame * PAGE_SIZE + vaddr % PAGE_SIZE
    {
      var leaf := Walk(vaddr);
      paddr := match leaf case None => 0 case Some(e) => e.frame * PAGE_SIZE + vaddr % PAGE_SIZE;
    }

    /** The common walk, level by level. */
    method Walk(vaddr: nat) returns (leaf: Option<Entry>)
      requires Valid()
      ensures leaf == Flat(tables, root, PageOf(vaddr))
    {
      var table, level := root, TOP;
      while level > 0
        invariant 0 <= level <= TOP
        invariant Owned(S(), table, level)
        invariant Flat(tables, root, PageOf(vaddr)) == Lookup(tables, table, level, PageOf(vaddr))
      {
        OwnedRoot(S(), table, level);
        IndexIsDigit(vaddr, level);
        var entry := tables[table][Index(vaddr, level)];
        if !entry.flags.present || entry.frame == 0 {
          return None;
        }
        ChildOwned(S(), table, level, Index(vaddr, level));
        table, level := entry.frame, level - 1;
      }
      OwnedRoot(S(), table, 0);
      IndexIsDigit(vaddr, 0);
      var entry := tables[table][Index(vaddr, 0)];
      leaf := if entry.flags.present then Some(entry) else None;
    }
  }

  /** A table of the tree is where ensure_next_table expects it. */
  lemma TableReady(s: Space, f: nat, level: nat, i: nat)
    requires Owned(s, f, level) && level > 0 && i < ENTRIES
    ensures f in s.tables && |s.tables[f]| == ENTRIES && f < |s.frames.used| && s.frames.used[f]
    ensures s.tables[f][i].Live() ==> s.tables[f][i].frame in s.tables
    ensures Consistent(s.frames) && s.frames.reserved > 0
  {
    RootFacts(s.tables, f, level, i);
    if s.tables[f][i].Live() {
      ChildStored(s, f, level, i);
    }
  }

  lemma MapAtLeaf(s: Space, f: nat, page: nat, leaf: Entry)
    requires f in s.tables && |s.tables[f]| == ENTRIES
    ensures MapAt(s, f, 0, page, leaf) == (s.(tables := PutEntry(s.tables, f, Digit(page, 0), leaf)), true)
  {}

  lemma FrameNumber(n: nat)
    ensures (n * PAGE_SIZE) / PAGE_SIZE == n && (n * PAGE_SIZE == 0 <==> n == 0)
  {}
}
