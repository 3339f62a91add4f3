// Which sectors the cache holds: the most recently used ones (src/kernel/bcache.c).
module CacheLru {
  import opened Basics
  import opened SeqArith
  import opened SectorCache

  /** The distinct sectors accessed, most recent first, after one more access. */
  function Touch(recent: seq<u32>, x: u32): seq<u32> { [x] + Without(recent, x) }

  function Without(s: seq<u32>, x: u32): seq<u32> {
    if s == [] then [] else if s[0] == x then Without(s[1..], x) else [s[0]] + Without(s[1..], x)
  }

  function Count(pool: Pool): nat {
    if pool == [] then 0 else (if pool[0].valid then 1 else 0) + Count(pool[1..])
  }

  function StampOf(pool: Pool, x: u32): nat {
    var i := Lookup(pool, x); if i < |pool| then pool[i].stamp else 0
  }

  ghost predicate Ordered(pool: Pool, clock: nat, kept: seq<u32>) {
    && (forall j :: 0 <= j < |kept| ==> StampOf(pool, kept[j]) <= clock)
    && (forall j, k :: 0 <= j < k < |kept| ==> StampOf(pool, kept[j]) > StampOf(pool, kept[k]))
  }

  ghost predicate Holding(pool: Pool, kept: seq<u32>) { forall x :: x in kept <==> Lookup(pool, x) < |pool| }

  /** The valid entries are exactly the sectors in `kept`, listed by falling stamp. */
  ghost predicate Lru(pool: Pool, clock: nat, kept: seq<u32>) {
    Unique(pool) && Distinct(kept) && Count(pool) == |kept| && Holding(pool, kept) && Ordered(pool, clock, kept)
  }

  // ---- counting ----

  lemma {:induction false} CountBound(pool: Pool)
    ensures Count(pool) <= |pool| && (Count(pool) == |pool| <==> FirstInvalid(pool) == |pool|)
  {
    if pool != [] {
      CountBound(pool[1..]);
    }
  }

  lemma {:induction false} CountSet(pool: Pool, v: nat, e: Entry)
    requires v < |pool| && e.valid
    ensures Count(pool[v := e]) == Count(pool) + if pool[v].valid then 0 else 1
  {
    if v > 0 {
      CountSet(pool[1..], v - 1, e);
      assert pool[v := e][1..] == pool[1..][v - 1 := e];
    } else {
      assert pool[v := e][1..] == pool[1..];
    }
  }

  // ---- the order of accesses ----

  lemma {:induction false} WithoutNone(s: seq<u32>, x: u32)
    requires x !in s
    ensures Without(s, x) == s
  {
    if s != [] {
      WithoutNone(s[1..], x);
    }
  }

  lemma {:induction false} WithoutAt(s: seq<u32>, j: nat)
    requires Distinct(s) && j < |s|
    ensures Without(s, s[j]) == s[..j] + s[j + 1..]
  {
    if j == 0 {
      WithoutNone(s[1..], s[0]);
    } else {
      WithoutAt(s[1..], j - 1);
      assert s[1..][..j - 1] == s[1..j] && s[1..][j - 1 + 1..] == s[j + 1..];
      assert s[..j] == [s[0]] + s[1..j];
    }
  }

  /** Touching the j-th sector moves it to the front. */
  lemma TouchAt(s: seq<u32>, j: nat)
    requires Distinct(s) && j < |s|
    ensures Touch(s, s[j]) == [s[j]] + s[..j] + s[j + 1..]
    ensures Distinct(Touch(s, s[j])) && |Touch(s, s[j])| == |s|
  {
    WithoutAt(s, j);
  }

  lemma TouchNew(s: seq<u32>, x: u32)
    requires Distinct(s) && x !in s
    ensures Touch(s, x) == [x] + s && Distinct(Touch(s, x))
  {
    WithoutNone(s, x);
  }

  // ---- the victim ----

  /** The scan for the smallest stamp finds it, as long as no stamp has reached the largest value. */
  lemma {:induction false} OldestIs(pool: Pool, n: nat)
    requires n <= |pool| && forall i :: 0 <= i < n ==> pool[i].stamp < STAMP_MAX
    ensures n > 0 ==> Oldest(pool, n) >= 0
    ensures forall i :: 0 <= i < n ==> pool[Oldest(pool, n)].stamp <= pool[i].stamp
  {
    if n > 0 {
      OldestIs(pool, n - 1);
    }
  }

  /** What replacing slot v by an entry for sector e.lba does to the other sectors. */
  lemma After(pool: Pool, v: nat, e: Entry, y: u32)
    requires Unique(pool) && v < |pool| && e.valid && Unique(pool[v := e])
    ensures Lookup(pool[v := e], e.lba) == v && StampOf(pool[v := e], e.lba) == e.stamp
    ensures y != e.lba && Lookup(pool, y) < |pool| && Lookup(pool, y) != v ==>
              Lookup(pool[v := e], y) == Lookup(pool, y) && StampOf(pool[v := e], y) == StampOf(pool, y)
    ensures y != e.lba && Lookup(pool[v := e], y) < |pool| ==> Lookup(pool[v := e], y) == Lookup(pool, y) != v
  {
    var p := pool[v := e];
    LookupIs(p, e.lba, v);
    if y != e.lba {
      if Lookup(pool, y) < |pool| && Lookup(pool, y) != v {
        LookupIs(p, y, Lookup(pool, y));
      }
      if Lookup(p, y) < |pool| {
        LookupIs(pool, y, Lookup(p, y));
      }
    }
  }

  /** The sectors kept after x takes slot v: x first, then the others that were kept and not in slot v. */
  ghost predicate Follows(pool: Pool, v: nat, x: u32, kept: seq<u32>, rest: seq<u32>) {
    && Distinct(rest) && x !in rest
    && (forall y :: y in rest <==> y in kept && y != x && Lookup(pool, y) != v)
    && (forall j, k :: 0 <= j < k < |rest| ==> StampOf(pool, rest[j]) > StampOf(pool, rest[k]))
  }

  lemma RestStamp(pool: Pool, clock: nat, kept: seq<u32>, v: nat, x: u32, rest: seq<u32>, e: Entry, j: nat)
    requires Lru(pool, clock, kept) && v < |pool| && e.valid && e.lba == x && Unique(pool[v := e])
    requires Follows(pool, v, x, kept, rest) && j < |rest|
    ensures StampOf(pool[v := e], rest[j]) == StampOf(pool, rest[j]) <= clock
  {
    hide Distinct, Unique, StampOf, Lookup;
    var y := rest[j];
    assert y in rest;
    After(pool, v, e, y);
    var k :| 0 <= k < |kept| && kept[k] == y;
  }

  lemma StepOrdered(pool: Pool, clock: nat, kept: seq<u32>, v: nat, x: u32, rest: seq<u32>, e: Entry)
    requires Lru(pool, clock, kept) && v < |pool| && e.valid && e.lba == x && e.stamp == clock + 1
    requires Unique(pool[v := e])
    requires Follows(pool, v, x, kept, rest)
    ensures Ordered(pool[v := e], clock + 1, [x] + rest)
  {
    hide Lru, StampOf, Distinct, Unique;
    var p, all := pool[v := e], [x] + rest;
    LookupIs(p, x, v);
    assert StampOf(p, x) == clock + 1 by { NewStamp(p, v, x); }
    forall j | 0 <= j < |rest|
      ensures StampOf(p, rest[j]) == StampOf(pool, rest[j]) <= clock
    {
      RestStamp(pool, clock, kept, v, x, rest, e, j);
    }
  }

  lemma NewStamp(p: Pool, v: nat, x: u32)
    requires v < |p| && Lookup(p, x) == v
    ensures StampOf(p, x) == p[v].stamp
  {}

  lemma StepHolding(pool: Pool, clock: nat, kept: seq<u32>, v: nat, x: u32, rest: seq<u32>, e: Entry)
    requires Lru(pool, clock, kept) && v < |pool| && e.valid && e.lba == x && Unique(pool[v := e])
    requires Follows(pool, v, x, kept, rest)
    ensures Holding(pool[v := e], [x] + rest)
  {
    hide Unique, StampOf, Lookup, Distinct;
    forall y
      ensures y in [x] + rest <==> Lookup(pool[v := e], y) < |pool|
    {
      After(pool, v, e, y);
    }
  }

  lemma StepKeeps(pool: Pool, clock: nat, kept: seq<u32>, v: nat, x: u32, rest: seq<u32>, e: Entry)
    requires Lru(pool, clock, kept) && v < |pool| && e.valid && e.lba == x && e.stamp == clock + 1
    requires Unique(pool[v := e])
    requires Follows(pool, v, x, kept, rest) && |rest| + 1 == |kept| + if pool[v].valid then 0 else 1
    ensures Lru(pool[v := e], clock + 1, [x] + rest)
  {
    hide Unique, Holding, Ordered;
    StepOrdered(pool, clock, kept, v, x, rest, e);
    StepHolding(pool, clock, kept, v, x, rest, e);
    CountSet(pool, v, e);
  }

  // ---- the three kinds of access ----

  /** The sectors the cache should hold: as many of the most recent as it has entries. */
  function Kept(n: nat, recent: seq<u32>): seq<u32> { if |recent| <= n then recent else recent[..n] }

  function Slot(pool: Pool, x: u32): (v: nat)
    requires pool != []
    ensures v < |pool|
  {
    if Lookup(pool, x) < |pool| then Lookup(pool, x) else Victim(pool)
  }

  lemma SlotUnique(pool: Pool, v: nat, e: Entry)
    requires pool != [] && Unique(pool) && e.valid && v == Slot(pool, e.lba)
    ensures Unique(pool[v := e])
  {
    hide Victim;
    UniqueAfter(pool, v, e);
  }

  lemma HitFollows(pool: Pool, clock: nat, kept: seq<u32>, j: nat)
    requires Lru(pool, clock, kept) && j < |kept|
    ensures Follows(pool, Lookup(pool, kept[j]), kept[j], kept, kept[..j] + kept[j + 1..])
  {
    hide Unique, StampOf;
    var x, rest := kept[j], kept[..j] + kept[j + 1..];
    forall y
      ensures y in rest <==> y in kept && y != x && Lookup(pool, y) != Lookup(pool, x)
    {
      if y in kept && y != x {
        var k :| 0 <= k < |kept| && kept[k] == y;
        assert rest[if k < j then k else k - 1] == y;
      }
    }
    forall a, b | 0 <= a < b < |rest|
      ensures rest[a] != rest[b] && StampOf(pool, rest[a]) > StampOf(pool, rest[b])
    {
      var a', b' := if a < j then a else a + 1, if b < j then b else b + 1;
      assert rest[a] == kept[a'] && rest[b] == kept[b'];
    }
  }

  lemma HitKeeps(pool: Pool, clock: nat, recent: seq<u32>, x: u32, e: Entry)
    requires pool != [] && Distinct(recent) && Lru(pool, clock, Kept(|pool|, recent)) && Lookup(pool, x) < |pool|
    requires e.valid && e.lba == x && e.stamp == clock + 1
    ensures Lru(pool[Slot(pool, x) := e], clock + 1, Kept(|pool|, Touch(recent, x))) && Distinct(Touch(recent, x))
  {
    hide Lru, Distinct, Touch, Unique, Follows;
    var kept := Kept(|pool|, recent);
    assert x in kept && Unique(pool) && pool[Lookup(pool, x)].valid by { LruParts(pool, clock, kept, x); }
    var j :| 0 <= j < |kept| && kept[j] == x;
    SlotUnique(pool, Slot(pool, x), e);
    HitFollows(pool, clock, kept, j);
    StepKeeps(pool, clock, kept, Lookup(pool, x), x, kept[..j] + kept[j + 1..], e);
    TouchAt(recent, j);
    MovedPrefix(|pool|, recent, j);
  }

  lemma MovedPrefix(n: nat, recent: seq<u32>, j: nat)
    requires j < |Kept(n, recent)|
    ensures var kept := Kept(n, recent);
            Kept(n, [recent[j]] + recent[..j] + recent[j + 1..]) == [kept[j]] + (kept[..j] + kept[j + 1..])
  {}

  lemma LruParts(pool: Pool, clock: nat, kept: seq<u32>, x: u32)
    requires Lru(pool, clock, kept)
    ensures Unique(pool) && Count(pool) == |kept| && (x in kept <==> Lookup(pool, x) < |pool|)
    ensures Lookup(pool, x) < |pool| ==> pool[Lookup(pool, x)].valid
  {}

  lemma RoomKeeps(pool: Pool, clock: nat, recent: seq<u32>, x: u32, e: Entry)
    requires pool != [] && Distinct(recent) && Lru(pool, clock, Kept(|pool|, recent)) && Lookup(pool, x) == |pool|
    requires FirstInvalid(pool) < |pool| && e.valid && e.lba == x && e.stamp == clock + 1
    ensures Lru(pool[Slot(pool, x) := e], clock + 1, Kept(|pool|, Touch(recent, x))) && Distinct(Touch(recent, x))
  {
    hide Distinct, Touch, Unique, StampOf, Count;
    CountBound(pool);
    assert Kept(|pool|, recent) == recent;
    SlotUnique(pool, Slot(pool, x), e);
    TouchNew(recent, x);
    StepKeeps(pool, clock, recent, Slot(pool, x), x, recent, e);
  }

  /** When every slot is taken the victim is the last of the kept sectors. */
  lemma VictimIsLast(pool: Pool, clock: nat, kept: seq<u32>)
    requires pool != [] && Lru(pool, clock, kept) && |kept| == |pool| && FirstInvalid(pool) == |pool|
    requires clock < STAMP_MAX
    ensures Victim(pool) == Lookup(pool, kept[|kept| - 1])
  {
    hide Unique, Distinct, Count, Ordered;
    forall i | 0 <= i < |pool|
      ensures pool[i].stamp < STAMP_MAX
    {
      EntryStamp(pool, clock, kept, i);
    }
    OldestIs(pool, |pool|);
    var v, last := Victim(pool), |kept| - 1;
    EntryStamp(pool, clock, kept, v);
    var j :| 0 <= j < |kept| && kept[j] == pool[v].lba;
    assert kept[last] in kept;
    if j < last {
      StampsFall(pool, clock, kept, j, last);
    }
  }

  lemma EntryStamp(pool: Pool, clock: nat, kept: seq<u32>, i: nat)
    requires Lru(pool, clock, kept) && i < |pool| && pool[i].valid
    ensures pool[i].lba in kept && Lookup(pool, pool[i].lba) == i && pool[i].stamp <= clock
  {
    LookupIs(pool, pool[i].lba, i);
    var j :| 0 <= j < |kept| && kept[j] == pool[i].lba;
    assert StampOf(pool, kept[j]) <= clock;
  }

  lemma StampsFall(pool: Pool, clock: nat, kept: seq<u32>, j: nat, k: nat)
    requires Lru(pool, clock, kept) && j < k < |kept|
    ensures StampOf(pool, kept[j]) > StampOf(pool, kept[k])
  {}

  lemma FullFollows(pool: Pool, clock: nat, kept: seq<u32>, x: u32)
    requires Lru(pool, clock, kept) && x !in kept && kept != []
    ensures Follows(pool, Lookup(pool, kept[|kept| - 1]), x, kept, kept[..|kept| - 1])
  {
    hide Unique, StampOf, Count;
    var last, rest := kept[|kept| - 1], kept[..|kept| - 1];
    forall y
      ensures y in rest <==> y in kept && y != x && Lookup(pool, y) != Lookup(pool, last)
    {
      if y in kept && y != last {
        var k :| 0 <= k < |kept| && kept[k] == y;
        assert rest[k] == y;
      }
      assert last in kept;
    }
  }

  lemma FullKeeps(pool: Pool, clock: nat, recent: seq<u32>, x: u32, e: Entry)
    requires pool != [] && Distinct(recent) && Lru(pool, clock, Kept(|pool|, recent)) && Lookup(pool, x) == |pool|
    requires FirstInvalid(pool) == |pool| && e.valid && e.lba == x && e.stamp == clock + 1 && clock < STAMP_MAX
    ensures Lru(pool[Slot(pool, x) := e], clock + 1, Kept(|pool|, Touch(recent, x))) && Distinct(Touch(recent, x))
  {
    hide Distinct, Touch, Unique, StampOf, Count, Lru, Follows, FirstInvalid, Oldest, Lookup;
    CountBound(pool);
    var kept := Kept(|pool|, recent);
    LruParts(pool, clock, kept, x);
    VictimIsLast(pool, clock, kept);
    LruParts(pool, clock, kept, kept[|kept| - 1]);
    assert kept[|kept| - 1] in kept;
    FullFollows(pool, clock, kept, x);
    SlotUnique(pool, Slot(pool, x), e);
    StepKeeps(pool, clock, kept, Slot(pool, x), x, kept[..|kept| - 1], e);
    PushedPrefix(|pool|, recent, x);
  }

  lemma PushedPrefix(n: nat, recent: seq<u32>, x: u32)
    requires Distinct(recent) && 0 < n <= |recent| && x !in Kept(n, recent)
    ensures Distinct(Touch(recent, x)) && Kept(n, Touch(recent, x)) == [x] + Kept(n, recent)[..n - 1]
  {
    hide Distinct, Touch;
    if x in recent {
      var j :| 0 <= j < |recent| && recent[j] == x;
      TouchAt(recent, j);
    } else {
      TouchNew(recent, x);
    }
  }

  // ---- whole runs ----

  ghost predicate FailureFree(e: Event) {
    match e
    case Read(_, wb, rd) => wb.Done? && rd
    case Write(_, _, wb, wt) => wb.Done? && wt.Done?
    case Flush(w) => forall j: nat :: w(j).Done?
    case Drop(_) => false
  }

  function Recent(recent: seq<u32>, e: Event): seq<u32> {
    if e.Read? || e.Write? then Touch(recent, e.lba) else recent
  }

  function RecentRun(recent: seq<u32>, es: seq<Event>): seq<u32>
    decreases |es|
  {
    if es == [] then recent else RecentRun(Recent(recent, es[0]), es[1..])
  }

  function Run(c: Cache, es: seq<Event>): Cache
    decreases |es|
  {
    if es == [] || c.pool == [] then c else Run(Apply(c, es[0]), es[1..])
  }

  ghost predicate AllClean(pool: Pool) { forall i :: 0 <= i < |pool| ==> !MustWriteBack(pool[i]) }

  /** Clock included: the cache holds the most recent sectors and nothing in it is dirty. */
  ghost predicate LruInv(c: Cache, recent: seq<u32>) {
    c.pool != [] && AllClean(c.pool) && Distinct(recent) && Lru(c.pool, c.clock, Kept(|c.pool|, recent))
  }

  lemma AccessKeeps(pool: Pool, clock: nat, recent: seq<u32>, x: u32, e: Entry)
    requires pool != [] && Distinct(recent) && Lru(pool, clock, Kept(|pool|, recent)) && clock < STAMP_MAX
    requires e.valid && e.lba == x && e.stamp == clock + 1
    ensures Lru(pool[Slot(pool, x) := e], clock + 1, Kept(|pool|, Touch(recent, x))) && Distinct(Touch(recent, x))
  {
    hide Distinct, Touch, Lru, Slot;
    if Lookup(pool, x) < |pool| {
      HitKeeps(pool, clock, recent, x, e);
    } else if FirstInvalid(pool) < |pool| {
      RoomKeeps(pool, clock, recent, x, e);
    } else {
      FullKeeps(pool, clock, recent, x, e);
    }
  }

  /** A failure-free access puts a clean, freshly stamped entry for the sector in its slot. */
  lemma AccessIs(c: Cache, e: Event)
    requires c.pool != [] && AllClean(c.pool) && FailureFree(e) && (e.Read? || e.Write?) && c.clock < STAMP_MAX
    ensures var k, v := Apply(c, e), Slot(c.pool, e.lba);
            && |k.pool| == |c.pool| && k.pool == c.pool[v := k.pool[v]] && k.clock == c.clock + 1
            && k.pool[v].valid && k.pool[v].lba == e.lba && k.pool[v].stamp == c.clock + 1 && !k.pool[v].dirty
  {
    hide Victim;
    var v := Slot(c.pool, e.lba);
    assert !MustWriteBack(c.pool[v]);
  }

  lemma {:induction false} FlushIsIdle(c: Cache, i: nat, w: nat -> Written)
    requires AllClean(c.pool)
    ensures FlushFrom(c, i, w) == c
    decreases |c.pool| - i
  {
    if i < |c.pool| {
      FlushIsIdle(c, i + 1, w);
    }
  }

  lemma ApplyKeeps(c: Cache, recent: seq<u32>, e: Event)
    requires LruInv(c, recent) && FailureFree(e) && c.clock < STAMP_MAX
    ensures LruInv(Apply(c, e), Recent(recent, e)) && |Apply(c, e).pool| == |c.pool| && Apply(c, e).clock <= c.clock + 1
  {
    hide Distinct, Touch, Lru, Slot, Apply, AllClean;
    if e.Read? || e.Write? {
      AccessIs(c, e);
      var v := Slot(c.pool, e.lba);
      AccessKeeps(c.pool, c.clock, recent, e.lba, Apply(c, e).pool[v]);
      CleanAfter(c.pool, v, Apply(c, e).pool[v]);
    } else {
      FlushIsIdle(c, 0, e.w);
      FlushIs(c, e);
    }
  }

  lemma FlushIs(c: Cache, e: Event)
    requires c.pool != [] && e.Flush?
    ensures Apply(c, e) == FlushFrom(c, 0, e.w)
  {}

  lemma CleanAfter(pool: Pool, v: nat, e: Entry)
    requires AllClean(pool) && v < |pool| && !e.dirty
    ensures AllClean(pool[v := e])
  {}

  lemma {:induction false} RunKeeps(c: Cache, recent: seq<u32>, es: seq<Event>)
    requires LruInv(c, recent) && (forall e :: e in es ==> FailureFree(e)) && c.clock + |es| <= STAMP_MAX
    ensures LruInv(Run(c, es), RecentRun(recent, es)) && |Run(c, es).pool| == |c.pool|
    decreases |es|
  {
    hide LruInv, FailureFree, Recent, Apply;
    NotEmpty(c, recent);
    if es != [] {
      ApplyKeeps(c, recent, es[0]);
      RunKeeps(Apply(c, es[0]), Recent(recent, es[0]), es[1..]);
    }
  }

  lemma NotEmpty(c: Cache, recent: seq<u32>)
    requires LruInv(c, recent)
    ensures c.pool != []
  {}

  lemma {:induction false} NoneValid(pool: Pool, x: u32)
    requires forall i :: 0 <= i < |pool| ==> !pool[i].valid
    ensures Count(pool) == 0 && Lookup(pool, x) == |pool|
  {
    if pool != [] {
      NoneValid(pool[1..], x);
    }
  }

  /**
   * Through every failure-free run of fewer than 2^64 accesses without invalidation, a sector is cached exactly
   * when it is among the most recent distinct ones, as many as there are entries; reading it then needs no device;
   * no two entries hold the same sector or bear the same stamp.
   */
  lemma LruTheorem(pool: Pool, disk: Disk, es: seq<Event>, x: u32, wb: Written)
    requires pool != [] && (forall i :: 0 <= i < |pool| ==> !pool[i].valid)
    requires (forall e :: e in es ==> FailureFree(e)) && |es| <= STAMP_MAX
    ensures var k := Run(Cache(pool, 0, disk), es);
            && |k.pool| == |pool|
            && (Lookup(k.pool, x) < |pool| <==> x in Kept(|pool|, RecentRun([], es)))
            && (x in Kept(|pool|, RecentRun([], es)) ==> ReadStep(k, x, wb, false).1.Some?)
            && forall i, j :: 0 <= i < j < |k.pool| && k.pool[i].valid && k.pool[j].valid ==>
                                k.pool[i].stamp != k.pool[j].stamp && k.pool[i].lba != k.pool[j].lba
  {
    hide Run, FailureFree, RecentRun;
    NoneValid(pool, x);
    forall y
      ensures Lookup(pool, y) == |pool|
    {
      NoneValid(pool, y);
    }
    RunKeeps(Cache(pool, 0, disk), [], es);
    var k := Run(Cache(pool, 0, disk), es);
    hide Lru;
    forall i, j | 0 <= i < j < |k.pool| && k.pool[i].valid && k.pool[j].valid
      ensures k.pool[i].stamp != k.pool[j].stamp && k.pool[i].lba != k.pool[j].lba
    {
      StampsDiffer(k.pool, k.clock, Kept(|k.pool|, RecentRun([], es)), i, j);
    }
  }

  lemma StampsDiffer(pool: Pool, clock: nat, kept: seq<u32>, i: nat, j: nat)
    requires Lru(pool, clock, kept) && i < j < |pool| && pool[i].valid && pool[j].valid
    ensures pool[i].stamp != pool[j].stamp && pool[i].lba != pool[j].lba
  {
    hide Lru, StampOf;
    EntryStamp(pool, clock, kept, i);
    EntryStamp(pool, clock, kept, j);
    StampsAre(pool, i);
    StampsAre(pool, j);
    var a :| 0 <= a < |kept| && kept[a] == pool[i].lba;
    var b :| 0 <= b < |kept| && kept[b] == pool[j].lba;
    if a < b {
      StampsFall(pool, clock, kept, a, b);
    } else if b < a {
      StampsFall(pool, clock, kept, b, a);
    }
  }

  lemma StampsAre(pool: Pool, i: nat)
    requires i < |pool| && Lookup(pool, pool[i].lba) == i
    ensures StampOf(pool, pool[i].lba) == pool[i].stamp
  {}
}
