// The 64-entry sector cache as a step function, and its refinement of a plain disk (src/kernel/bcache.c).
module SectorCache {
  import opened Basics
  import opened SeqArith

  const BLOCKS: nat := 64
  const STAMP_MAX: nat := 0xFFFF_FFFF_FFFF_FFFF

  type Sector = seq<byte>

  datatype Entry = Entry(lba: u32, data: Sector, valid: bool, dirty: bool, stamp: nat)

  type Pool = seq<Entry>

  type Disk = map<u32, Sector>

  /** A device write succeeds, or fails and leaves the sector with unknown contents. */
  datatype Written = Done | Lost(left: Sector)

  function Get(d: Disk, lba: u32): Sector { if lba in d then d[lba] else [] }

  function Put(d: Disk, lba: u32, data: Sector, w: Written): Disk { d[lba := if w.Done? then data else w.left] }

  datatype Cache = Cache(pool: Pool, clock: nat, disk: Disk)

  /** The 64-bit access counter. */
  function Tick(clock: nat): nat { (clock + 1) % (STAMP_MAX + 1) }

  predicate Holds(e: Entry, lba: u32) { e.valid && e.lba == lba }

  /** Index of the entry for a sector, or the number of entries. */
  function Lookup(pool: Pool, lba: u32): (i: nat)
    ensures i <= |pool| && (i < |pool| ==> Holds(pool[i], lba))
    ensures forall k :: 0 <= k < i ==> !Holds(pool[k], lba)
  {
    if pool == [] then 0 else if Holds(pool[0], lba) then 0 else 1 + Lookup(pool[1..], lba)
  }

  /** Among the first n entries the one least recently stamped; -1 if none is below the largest stamp. */
  function Oldest(pool: Pool, n: nat): (r: int)
    requires n <= |pool|
    ensures -1 <= r < n
  {
    if n == 0 then -1
    else
      var o := Oldest(pool, n - 1);
      if pool[n - 1].stamp < (if o < 0 then STAMP_MAX else pool[o].stamp) then n - 1 else o
  }

  function FirstInvalid(pool: Pool): (i: nat)
    ensures i <= |pool| && (i < |pool| ==> !pool[i].valid)
    ensures forall k :: 0 <= k < i ==> pool[k].valid
  {
    if pool == [] then 0 else if !pool[0].valid then 0 else 1 + FirstInvalid(pool[1..])
  }

  /** The entry a miss replaces. */
  function Victim(pool: Pool): (v: nat)
    requires pool != []
    ensures v < |pool|
  {
    if FirstInvalid(pool) < |pool| then FirstInvalid(pool)
    else if Oldest(pool, |pool|) < 0 then 0 else Oldest(pool, |pool|)
  }

  // ---- the operations ----

  predicate MustWriteBack(e: Entry) { e.valid && e.dirty }

  /** A dirty victim is written back before its slot is reused. */
  function Cleaned(c: Cache, v: nat, wb: Written): Cache
    requires v < |c.pool|
  {
    var e := c.pool[v];
    if MustWriteBack(e) then c.(pool := c.pool[v := e.(dirty := false)], disk := Put(c.disk, e.lba, e.data, wb)) else c
  }

  function ReadMiss(c: Cache, lba: u32, v: nat, wb: Written, rd: bool): (Cache, Option<Sector>)
    requires v < |c.pool|
  {
    var e := c.pool[v];
    if MustWriteBack(e) && wb.Lost? then (c.(disk := Put(c.disk, e.lba, e.data, wb)), None)
    else
      var k := Cleaned(c, v, wb);
      if !rd then (k, None)
      else
        var data, now := Get(k.disk, lba), Tick(c.clock);
        (Cache(k.pool[v := Entry(lba, data, true, false, now)], now, k.disk), Some(data))
  }

  /** bcache_read_sector, given how the device answers a write-back and a read. */
  function ReadStep(c: Cache, lba: u32, wb: Written, rd: bool): (Cache, Option<Sector>)
    requires c.pool != []
  {
    var i := Lookup(c.pool, lba);
    if i < |c.pool| then
      (c.(pool := c.pool[i := c.pool[i].(stamp := Tick(c.clock))], clock := Tick(c.clock)), Some(c.pool[i].data))
    else
      ReadMiss(c, lba, Victim(c.pool), wb, rd)
  }

  /** The slot a write goes to, with a dirty occupant written back whether or not the device accepts it. */
  function WriteSlot(c: Cache, lba: u32): (v: nat)
    requires c.pool != []
    ensures v < |c.pool|
  {
    var i := Lookup(c.pool, lba);
    if i < |c.pool| then i else Victim(c.pool)
  }

  function Fill(c: Cache, lba: u32, data: Sector, v: nat, wt: Written): Cache
    requires v < |c.pool|
  {
    var now := Tick(c.clock);
    Cache(c.pool[v := Entry(lba, data, true, wt.Lost?, now)], now, Put(c.disk, lba, data, wt))
  }

  /** bcache_write_sector: wb answers the eviction's write-back, wt the write-through. */
  function WriteStep(c: Cache, lba: u32, data: Sector, wb: Written, wt: Written): Cache
    requires c.pool != []
  {
    var v := WriteSlot(c, lba);
    if Holds(c.pool[v], lba) then Fill(c, lba, data, v, wt) else Fill(Cleaned(c, v, wb), lba, data, v, wt)
  }

  /** One step of bcache_flush. */
  function FlushOne(c: Cache, i: nat, w: Written): Cache
    requires i < |c.pool|
  {
    var e := c.pool[i];
    if !MustWriteBack(e) then c
    else
      c.(disk := Put(c.disk, e.lba, e.data, w), pool := if w.Done? then c.pool[i := e.(dirty := false)] else c.pool)
  }

  /** bcache_flush over the entries from i on; w answers for entry i. */
  function FlushFrom(c: Cache, i: nat, w: nat -> Written): Cache
    decreases |c.pool| - i
  {
    if i >= |c.pool| then c else FlushFrom(FlushOne(c, i, w(i)), i + 1, w)
  }

  function Dropped(e: Entry, lba: u32): Entry { if Holds(e, lba) then e.(valid := false, dirty := false) else e }

  /** bcache_invalidate. */
  function Invalidate(c: Cache, lba: u32): Cache {
    c.(pool := seq(|c.pool|, i requires 0 <= i < |c.pool| => Dropped(c.pool[i], lba)))
  }

  // ---- the plain disk ----

  /** What a reader sees in a sector: the cached copy, or the disk's. */
  function Content(c: Cache, x: u32): Sector {
    var i := Lookup(c.pool, x);
    if i < |c.pool| then c.pool[i].data else Get(c.disk, x)
  }

  ghost predicate Unique(pool: Pool) {
    forall i, j :: 0 <= i < j < |pool| && pool[i].valid && pool[j].valid ==> pool[i].lba != pool[j].lba
  }

  predicate EntryOk(e: Entry, d: Disk) { e.valid && !e.dirty ==> e.data == Get(d, e.lba) }

  /** No sector is cached twice and a clean entry equals the disk. */
  ghost predicate Inv(c: Cache) {
    c.pool != [] && Unique(c.pool) && forall i :: 0 <= i < |c.pool| ==> EntryOk(c.pool[i], c.disk)
  }

  lemma LookupIs(pool: Pool, x: u32, i: nat)
    requires Unique(pool) && i < |pool| && Holds(pool[i], x)
    ensures Lookup(pool, x) == i
  {}

  /** Replacing one entry changes what readers see only of the two sectors that entry named. */
  lemma ContentAfter(c: Cache, v: nat, e: Entry, clock: nat, d: Disk, x: u32)
    requires Unique(c.pool) && v < |c.pool| && Unique(c.pool[v := e])
    ensures Content(Cache(c.pool[v := e], clock, d), x) ==
            if Holds(e, x) then e.data
            else if Lookup(c.pool, x) < |c.pool| && Lookup(c.pool, x) != v then Content(c, x)
            else Get(d, x)
  {
    hide Get;
    var p := c.pool[v := e];
    var i := Lookup(c.pool, x);
    if Holds(e, x) {
      LookupIs(p, x, v);
    } else if i < |p| && i != v {
      LookupIs(p, x, i);
    }
  }

  lemma UniqueAfter(pool: Pool, v: nat, e: Entry)
    requires Unique(pool) && v < |pool|
    requires e.valid ==> Lookup(pool, e.lba) == v || Lookup(pool, e.lba) == |pool|
    ensures Unique(pool[v := e])
  {
    if e.valid {
      forall k | 0 <= k < |pool| && k != v && pool[k].valid
        ensures pool[k].lba != e.lba
      {
        if pool[k].lba == e.lba {
          LookupIs(pool, e.lba, k);
        }
      }
    }
  }

  predicate Named(pool: Pool, v: nat, e: Entry, y: u32)
    requires v < |pool|
  {
    Holds(pool[v], y) || Holds(e, y)
  }

  lemma Alone(pool: Pool, v: nat, i: nat, y: u32)
    requires Unique(pool) && v < |pool| && i < |pool| && i != v && Holds(pool[v], y)
    ensures !Holds(pool[i], y)
  {}

  /** Replacing an entry keeps the invariant if the disk changed only at sectors the slot named before or names now. */
  lemma InvAfter(c: Cache, v: nat, e: Entry, clock: nat, d: Disk)
    requires Inv(c) && v < |c.pool| && Unique(c.pool[v := e]) && EntryOk(e, d)
    requires forall y :: Get(d, y) != Get(c.disk, y) ==> Named(c.pool, v, e, y)
    ensures Inv(Cache(c.pool[v := e], clock, d))
  {
    hide Get, Unique;
    var p := c.pool[v := e];
    forall i | 0 <= i < |p|
      ensures EntryOk(p[i], d)
    {
      if i != v && p[i].valid && Get(d, p[i].lba) != Get(c.disk, p[i].lba) {
        if Holds(c.pool[v], p[i].lba) {
          Alone(c.pool, v, i, p[i].lba);
        } else {
          Alone(p, v, i, p[i].lba);
        }
      }
    }
  }

  lemma InvParts(c: Cache)
    requires Inv(c)
    ensures c.pool != [] && Unique(c.pool)
  {}

  lemma EntryPart(c: Cache, i: nat)
    requires Inv(c) && i < |c.pool|
    ensures EntryOk(c.pool[i], c.disk)
  {}

  // ---- reading ----

  lemma {:induction false} SameLookup(p: Pool, q: Pool, x: u32)
    requires |p| == |q| && forall i :: 0 <= i < |p| ==> p[i].valid == q[i].valid && p[i].lba == q[i].lba
    ensures Lookup(p, x) == Lookup(q, x)
  {
    if p != [] {
      SameLookup(p[1..], q[1..], x);
    }
  }

  /** A write-back keeps the invariant unless it fails, and no reader sees it unless it fails. */
  lemma CleanedKeeps(c: Cache, v: nat, wb: Written)
    requires Inv(c) && v < |c.pool| && (MustWriteBack(c.pool[v]) ==> wb.Done?)
    ensures Inv(Cleaned(c, v, wb)) && forall x :: Lookup(Cleaned(c, v, wb).pool, x) == Lookup(c.pool, x)
    ensures forall x :: Content(Cleaned(c, v, wb), x) == Content(c, x)
  {
    hide Inv, Content;
    var e := c.pool[v];
    InvParts(c);
    if MustWriteBack(e) {
      LookupIs(c.pool, e.lba, v);
      UniqueAfter(c.pool, v, e.(dirty := false));
      var k := Cleaned(c, v, wb);
      InvAfter(c, v, e.(dirty := false), c.clock, k.disk);
      forall x
        ensures Lookup(k.pool, x) == Lookup(c.pool, x) && Content(k, x) == Content(c, x)
      {
        SameLookup(c.pool, k.pool, x);
        CleanedContent(c, v, k.disk, x);
      }
    }
  }

  lemma CleanedContent(c: Cache, v: nat, d: Disk, x: u32)
    requires Unique(c.pool) && v < |c.pool| && MustWriteBack(c.pool[v])
    requires d == Put(c.disk, c.pool[v].lba, c.pool[v].data, Done)
    ensures Content(c.(pool := c.pool[v := c.pool[v].(dirty := false)], disk := d), x) == Content(c, x)
  {
    var e := c.pool[v];
    LookupIs(c.pool, e.lba, v);
    UniqueAfter(c.pool, v, e.(dirty := false));
    ContentAfter(c, v, e.(dirty := false), c.clock, d, x);
  }

  /** A failed write-back on the read path is hidden by the entry, which stays dirty. */
  lemma SpoiltKeeps(c: Cache, v: nat, left: Sector)
    requires Inv(c) && v < |c.pool| && MustWriteBack(c.pool[v])
    ensures var k := c.(disk := c.disk[c.pool[v].lba := left]); Inv(k) && forall x :: Content(k, x) == Content(c, x)
  {
    var e, k := c.pool[v], c.(disk := c.disk[c.pool[v].lba := left]);
    LookupIs(c.pool, e.lba, v);
    assert c.pool[v := e] == c.pool;
    InvAfter(c, v, e, c.clock, k.disk);
  }

  lemma ReadMissKeeps(c: Cache, lba: u32, v: nat, wb: Written, rd: bool)
    requires Inv(c) && Lookup(c.pool, lba) == |c.pool| && v < |c.pool|
    ensures var (k, r) := ReadMiss(c, lba, v, wb, rd);
            Inv(k) && (forall x :: Content(k, x) == Content(c, x)) && (r.Some? ==> r.value == Content(c, lba))
  {
    hide Inv, Content, Lookup;
    var e := c.pool[v];
    if MustWriteBack(e) && wb.Lost? {
      SpoiltKeeps(c, v, wb.left);
    } else {
      CleanedKeeps(c, v, wb);
      if rd {
        LoadKeeps(Cleaned(c, v, wb), lba, v, Tick(c.clock));
      }
    }
  }

  /** A clean slot is reloaded from the disk. */
  lemma LoadKeeps(c: Cache, lba: u32, v: nat, now: nat)
    requires Inv(c) && Lookup(c.pool, lba) == |c.pool| && v < |c.pool| && !MustWriteBack(c.pool[v])
    ensures var k := Cache(c.pool[v := Entry(lba, Get(c.disk, lba), true, false, now)], now, c.disk);
            Inv(k) && (forall x :: Content(k, x) == Content(c, x)) && Content(c, lba) == Get(c.disk, lba)
  {
    hide Inv, Get;
    InvParts(c);
    var e := Entry(lba, Get(c.disk, lba), true, false, now);
    UniqueAfter(c.pool, v, e);
    InvAfter(c, v, e, now, c.disk);
    EntryPart(c, v);
    forall x
      ensures Content(Cache(c.pool[v := e], now, c.disk), x) == Content(c, x)
    {
      ContentAfter(c, v, e, now, c.disk, x);
    }
  }

  /** Reading, whether it succeeds or not, changes nothing a reader can see, and returns what is there. */
  lemma ReadKeeps(c: Cache, lba: u32, wb: Written, rd: bool)
    requires Inv(c)
    ensures var (k, r) := ReadStep(c, lba, wb, rd);
            Inv(k) && (forall x :: Content(k, x) == Content(c, x)) && (r.Some? ==> r.value == Content(c, lba))
  {
    hide Inv, ReadMiss;
    InvParts(c);
    var i := Lookup(c.pool, lba);
    if i < |c.pool| {
      var e, now := c.pool[i].(stamp := Tick(c.clock)), Tick(c.clock);
      UniqueAfter(c.pool, i, e);
      EntryPart(c, i);
      InvAfter(c, i, e, now, c.disk);
      forall x
        ensures Content(Cache(c.pool[i := e], now, c.disk), x) == Content(c, x)
      {
        ContentAfter(c, i, e, now, c.disk, x);
      }
    } else {
      ReadMissKeeps(c, lba, Victim(c.pool), wb, rd);
    }
  }

  /** A read is refused only for a sector that is not cached, when the device refuses the read or a write-back. */
  lemma ReadAnswers(c: Cache, lba: u32, wb: Written, rd: bool)
    requires Inv(c)
    ensures var r := ReadStep(c, lba, wb, rd).1;
            && (Lookup(c.pool, lba) < |c.pool| || (rd && wb.Done?) ==> r == Some(Content(c, lba)))
            && (Lookup(c.pool, lba) == |c.pool| && !rd ==> r.None?)
  {
    hide Inv, Victim, Content;
    InvParts(c);
    ReadKeeps(c, lba, wb, rd);
  }

  // ---- writing ----

  /** The write evicts a dirty sector x whose write-back fails and leaves something else on the disk. */
  predicate Loses(c: Cache, lba: u32, wb: Written, x: u32)
    requires c.pool != []
  {
    var e := c.pool[WriteSlot(c, lba)];
    !Holds(e, lba) && MustWriteBack(e) && wb.Lost? && x == e.lba && wb.left != e.data
  }

  /** The disk after a write, with both device writes made. */
  function DiskAfter(c: Cache, lba: u32, data: Sector, wb: Written, wt: Written): Disk
    requires c.pool != []
  {
    var e := c.pool[WriteSlot(c, lba)];
    Put(if !Holds(e, lba) && MustWriteBack(e) then Put(c.disk, e.lba, e.data, wb) else c.disk, lba, data, wt)
  }

  lemma WriteIs(c: Cache, lba: u32, data: Sector, wb: Written, wt: Written)
    requires c.pool != []
    ensures var v, now := WriteSlot(c, lba), Tick(c.clock);
            WriteStep(c, lba, data, wb, wt) == Cache(c.pool[v := Entry(lba, data, true, wt.Lost?, now)], now,
                    DiskAfter(c, lba, data, wb, wt))
  {
    hide Lookup, Victim, WriteSlot;
  }

  lemma WriteEntry(c: Cache, lba: u32, data: Sector, wb: Written, wt: Written)
    requires Inv(c)
    ensures var v, e := WriteSlot(c, lba), Entry(lba, data, true, wt.Lost?, Tick(c.clock));
            var d := DiskAfter(c, lba, data, wb, wt);
            && Unique(c.pool) && Unique(c.pool[v := e]) && EntryOk(e, d)
            && forall y :: Get(d, y) != Get(c.disk, y) ==> Named(c.pool, v, e, y)
  {
    hide Inv, Victim, Lookup;
    InvParts(c);
    UniqueAfter(c.pool, WriteSlot(c, lba), Entry(lba, data, true, wt.Lost?, Tick(c.clock)));
  }

  lemma StoredThrough(c: Cache, lba: u32, data: Sector, wb: Written, wt: Written)
    requires c.pool != []
    ensures wt.Done? ==> Get(DiskAfter(c, lba, data, wb, wt), lba) == data
  {
    hide WriteSlot;
  }

  /**
   * After a write a reader sees the buffer even if the device refused it, and every other sector as before,
   * unless one was lost.
   */
  lemma WriteExactly(c: Cache, lba: u32, data: Sector, wb: Written, wt: Written)
    requires Inv(c)
    ensures var k := WriteStep(c, lba, data, wb, wt);
            && Inv(k) && Content(k, lba) == data && (wt.Done? ==> Get(k.disk, lba) == data)
            && forall x :: x != lba ==> (Content(k, x) == Content(c, x) <==> !Loses(c, lba, wb, x))
  {
    hide Inv, Lookup, Victim, WriteSlot, WriteStep, DiskAfter, Content;
    InvParts(c);
    StoredThrough(c, lba, data, wb, wt);
    var v, e, d := WriteSlot(c, lba), Entry(lba, data, true, wt.Lost?, Tick(c.clock)), DiskAfter(c, lba, data, wb, wt);
    WriteIs(c, lba, data, wb, wt);
    WriteEntry(c, lba, data, wb, wt);
    InvAfter(c, v, e, e.stamp, d);
    ContentAfter(c, v, e, e.stamp, d, lba);
    forall x | x != lba
      ensures Content(Cache(c.pool[v := e], e.stamp, d), x) == Content(c, x) <==> !Loses(c, lba, wb, x)
    {
      ContentAfter(c, v, e, e.stamp, d, x);
      WriteOther(c, lba, data, wb, wt, x);
    }
  }

  lemma WriteOther(c: Cache, lba: u32, data: Sector, wb: Written, wt: Written, x: u32)
    requires Inv(c) && x != lba
    ensures var i, v, d := Lookup(c.pool, x), WriteSlot(c, lba), DiskAfter(c, lba, data, wb, wt);
            (if i < |c.pool| && i != v then Content(c, x) else Get(d, x)) == Content(c, x) <==> !Loses(c, lba, wb, x)
  {
    hide Inv, Victim, WriteSlot;
    InvParts(c);
    var v := WriteSlot(c, lba);
    EntryPart(c, v);
    if c.pool[v].valid {
      LookupIs(c.pool, c.pool[v].lba, v);
    }
  }

  // ---- flush and invalidate ----

  lemma FlushOneKeeps(c: Cache, i: nat, w: Written)
    requires Inv(c) && i < |c.pool|
    ensures var k := FlushOne(c, i, w); Inv(k) && |k.pool| == |c.pool| && forall x :: Content(k, x) == Content(c, x)
    ensures var k := FlushOne(c, i, w);
            && (w.Done? ==> !MustWriteBack(k.pool[i]))
            && forall j :: 0 <= j < |c.pool| && !MustWriteBack(c.pool[j]) ==> !MustWriteBack(k.pool[j])
  {
    hide Inv, Content;
    InvParts(c);
    if MustWriteBack(c.pool[i]) {
      if w.Done? {
        CleanedKeeps(c, i, w);
      } else {
        SpoiltKeeps(c, i, w.left);
      }
    }
  }

  /** Flushing is invisible to readers; when every device write succeeds nothing stays dirty. */
  lemma {:induction false} FlushKeeps(c: Cache, i: nat, w: nat -> Written)
    requires Inv(c) && i <= |c.pool|
    requires forall j :: 0 <= j < i && w(j).Done? ==> !MustWriteBack(c.pool[j])
    ensures var k := FlushFrom(c, i, w);
            && Inv(k) && |k.pool| == |c.pool| && (forall x :: Content(k, x) == Content(c, x))
            && forall j :: 0 <= j < |k.pool| && w(j).Done? ==> !MustWriteBack(k.pool[j])
    decreases |c.pool| - i
  {
    hide Inv, Content, FlushOne, MustWriteBack;
    if i < |c.pool| {
      FlushOneKeeps(c, i, w(i));
      FlushKeeps(FlushOne(c, i, w(i)), i + 1, w);
    }
  }

  /** After a flush the device accepted in full, the disk itself holds what readers see. */
  lemma FlushCommits(c: Cache, w: nat -> Written, x: u32)
    requires Inv(c) && forall j: nat :: w(j).Done?
    ensures var k := FlushFrom(c, 0, w); Get(k.disk, x) == Content(k, x) == Content(c, x)
  {
    hide FlushFrom;
    FlushKeeps(c, 0, w);
  }

  lemma DroppedPool(c: Cache, lba: u32, x: u32)
    requires Inv(c)
    ensures var k := Invalidate(c, lba);
            Unique(k.pool) && Lookup(k.pool, x) == if x == lba then |c.pool| else Lookup(c.pool, x)
  {
    var k := Invalidate(c, lba);
    var i := Lookup(c.pool, x);
    if x != lba && i < |c.pool| {
      assert Holds(k.pool[i], x);
      LookupIs(k.pool, x, i);
    }
    if x != lba && Lookup(k.pool, x) < |c.pool| {
      assert Holds(c.pool[Lookup(k.pool, x)], x);
    }
  }

  /** Invalidation shows the disk's copy of that sector and changes no other. */
  lemma InvalidateExactly(c: Cache, lba: u32)
    requires Inv(c)
    ensures var k := Invalidate(c, lba);
            && Inv(k) && Content(k, lba) == Get(c.disk, lba)
            && forall x :: x != lba ==> Content(k, x) == Content(c, x)
  {
    hide Unique;
    var k := Invalidate(c, lba);
    DroppedPool(c, lba, lba);
    forall x | x != lba
      ensures Content(k, x) == Content(c, x)
    {
      DroppedPool(c, lba, x);
    }
    forall i | 0 <= i < |k.pool|
      ensures EntryOk(k.pool[i], k.disk)
    {
      EntryPart(c, i);
    }
  }

  // ---- whole runs ----

  datatype Event =
    | Read(lba: u32, wb: Written, rd: bool)
    | Write(lba: u32, data: Sector, wb: Written, wt: Written)
    | Flush(w: nat -> Written)
    | Drop(lba: u32)

  function Apply(c: Cache, e: Event): Cache
    requires c.pool != []
  {
    match e
    case Read(lba, wb, rd) => ReadStep(c, lba, wb, rd).0
    case Write(lba, data, wb, wt) => WriteStep(c, lba, data, wb, wt)
    case Flush(w) => FlushFrom(c, 0, w)
    case Drop(lba) => Invalidate(c, lba)
  }

  /** No write evicts a dirty sector that the device then refuses, and no dirty entry is invalidated. */
  predicate Safe(c: Cache, e: Event)
    requires c.pool != []
  {
    match e
    case Write(lba, data, wb, wt) =>
      var o := c.pool[WriteSlot(c, lba)]; !Holds(o, lba) && MustWriteBack(o) ==> wb.Done?
    case Drop(lba) =>
      var i := Lookup(c.pool, lba); i < |c.pool| ==> !c.pool[i].dirty
    case _ => true
  }

  /** A plain disk's sector x: the last buffer written to it. */
  function PlainAfter(e: Event, x: u32, s: Sector): Sector {
    if e.Write? && e.lba == x then e.data else s
  }

  function PlainRun(es: seq<Event>, x: u32, s: Sector): Sector
    decreases |es|
  {
    if es == [] then s else PlainRun(es[1..], x, PlainAfter(es[0], x, s))
  }

  lemma ApplyRefines(c: Cache, e: Event)
    requires Inv(c) && Safe(c, e)
    ensures Inv(Apply(c, e)) && forall x :: Content(Apply(c, e), x) == PlainAfter(e, x, Content(c, x))
  {
    hide Inv, ReadStep, WriteStep, FlushFrom, Invalidate, Victim, Lookup;
    InvParts(c);
    match e {
      case Read(lba, wb, rd) => ReadKeeps(c, lba, wb, rd);
      case Write(lba, data, wb, wt) => WriteExactly(c, lba, data, wb, wt);
      case Flush(w) => FlushKeeps(c, 0, w);
      case Drop(lba) =>
        InvalidateExactly(c, lba);
        var i := Lookup(c.pool, lba);
        if i < |c.pool| {
          EntryPart(c, i);
        }
    }
  }

  /** The state after a run in which every step was safe when it was taken, or None. */
  ghost function SafeRun(c: Cache, es: seq<Event>): Option<Cache>
    decreases |es|
  {
    if c.pool == [] then None
    else if es == [] then Some(c)
    else if Safe(c, es[0]) then SafeRun(Apply(c, es[0]), es[1..]) else None
  }

  /** Over every safe run, device failures included, the cache shows exactly what a plain disk would hold. */
  lemma {:induction false} RunRefines(c: Cache, es: seq<Event>)
    requires Inv(c) && SafeRun(c, es).Some?
    ensures var k := SafeRun(c, es).value; Inv(k) && forall x :: Content(k, x) == PlainRun(es, x, Content(c, x))
    decreases |es|
  {
    hide Inv, Content, Apply, Safe, PlainAfter;
    if es != [] {
      ApplyRefines(c, es[0]);
      RunRefines(Apply(c, es[0]), es[1..]);
    }
  }

  /**
   * A read that succeeds returns the last buffer given to a write of that sector, or what the disk held at
   * the start.
   */
  lemma ReadsLastWrite(disk: Disk, pool: Pool, es: seq<Event>, lba: u32, wb: Written, rd: bool)
    requires pool != [] && (forall i :: 0 <= i < |pool| ==> !pool[i].valid) && SafeRun(Cache(pool, 0, disk), es).Some?
    ensures var k := SafeRun(Cache(pool, 0, disk), es).value;
            && k.pool != []
            && var r := ReadStep(k, lba, wb, rd).1;
               (rd && wb.Done? ==> r.Some?) && (r.Some? ==> r.value == PlainRun(es, lba, Get(disk, lba)))
  {
    hide SafeRun, ReadStep, PlainRun;
    var c := Cache(pool, 0, disk);
    RunRefines(c, es);
    ReadKeeps(SafeRun(c, es).value, lba, wb, rd);
    ReadAnswers(SafeRun(c, es).value, lba, wb, rd);
  }
}
