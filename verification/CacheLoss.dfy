// A run on which the sector cache loses a buffer it had accepted (src/kernel/bcache.c).
module CacheLoss {
  import opened SectorCache

  const NOTHING: Entry := Entry(0, [], false, false, 0)

  /** Sectors 0 to n - 1 have been written in turn; the device refused sector 0. */
  function Filled(n: nat, a: Sector, b: Sector): Pool
    requires n <= BLOCKS
  {
    seq(BLOCKS, i requires 0 <= i < BLOCKS =>
      if i < n then Entry(i, if i == 0 then a else b, true, i == 0, i + 1) else NOTHING)
  }

  function FilledDisk(n: nat, left: Sector, b: Sector): Disk
    requires n <= BLOCKS
  {
    if n == 0 then map[] else FilledDisk(n - 1, left, b)[n - 1 := if n == 1 then left else b]
  }

  /** The cache after a refused write of sector 0 and accepted writes of sectors 1 to n - 1. */
  function State(n: nat, a: Sector, left: Sector, b: Sector): Cache
    requires n <= BLOCKS
  {
    Cache(Filled(n, a, b), n, FilledDisk(n, left, b))
  }

  lemma Free(n: nat, a: Sector, b: Sector)
    requires n < BLOCKS
    ensures Lookup(Filled(n, a, b), n) == BLOCKS && FirstInvalid(Filled(n, a, b)) == n
  {
    var p := Filled(n, a, b);
    assert |p| == BLOCKS;
    assert !p[n].valid;
  }

  lemma FillOne(n: nat, a: Sector, left: Sector, b: Sector)
    requires n < BLOCKS
    ensures WriteStep(State(n, a, left, b), n, if n == 0 then a else b, Done, if n == 0 then Lost(left) else Done) ==
            State(n + 1, a, left, b)
  {
    hide Lookup, FirstInvalid, Oldest;
    Free(n, a, b);
    var c := State(n, a, left, b);
    var d := WriteStep(c, n, if n == 0 then a else b, Done, if n == 0 then Lost(left) else Done);
    assert WriteSlot(c, n) == n;
    assert d.pool == Filled(n + 1, a, b);
    assert d.disk == FilledDisk(n + 1, left, b);
  }

  /** The events that fill the cache up to sector n - 1, all of which a caller can issue. */
  function Fills(n: nat, a: Sector, left: Sector, b: Sector): seq<Event>
    requires n <= BLOCKS
  {
    seq(n, i requires 0 <= i < n =>
      Write(i, if i == 0 then a else b, Done, if i == 0 then Lost(left) else Done))
  }

  function Steps(c: Cache, es: seq<Event>): Cache
    decreases |es|
  {
    if es == [] then c
    else
      var d := Steps(c, es[..|es| - 1]);
      if d.pool == [] then d else Apply(d, es[|es| - 1])
  }

  lemma {:induction false} FillRun(n: nat, a: Sector, left: Sector, b: Sector)
    requires n <= BLOCKS
    ensures Steps(State(0, a, left, b), Fills(n, a, left, b)) == State(n, a, left, b)
  {
    hide WriteStep, Filled, FilledDisk;
    if n > 0 {
      FillRun(n - 1, a, left, b);
      assert Fills(n, a, left, b)[..n - 1] == Fills(n - 1, a, left, b);
      PoolSize(n - 1, a, b);
      FillOne(n - 1, a, left, b);
    }
  }

  lemma PoolSize(n: nat, a: Sector, b: Sector)
    requires n <= BLOCKS
    ensures |Filled(n, a, b)| == BLOCKS
  {}

  lemma FullVictim(a: Sector, b: Sector)
    ensures var p := Filled(BLOCKS, a, b); |p| == BLOCKS && Lookup(p, BLOCKS) == BLOCKS && Victim(p) == 0
  {
    var p := Filled(BLOCKS, a, b);
    forall n: nat | 0 < n <= BLOCKS
      ensures Oldest(p, n) == 0
    {
      OldestFirst(p, n);
    }
    assert FirstInvalid(p) == BLOCKS;
  }

  lemma {:induction false} OldestFirst(p: Pool, n: nat)
    requires 0 < n <= |p| <= BLOCKS && forall i :: 0 <= i < |p| ==> p[i].stamp == i + 1
    ensures Oldest(p, n) == 0
  {
    if n > 1 {
      OldestFirst(p, n - 1);
    }
  }

  /**
   * From the empty cache: sector 0 is written and the device refuses it, 63 more sectors fill the cache, and a write of
   * sector 64 evicts sector 0 while the device refuses again. The reader saw the buffer until then and does not after.
   */
  lemma LossReached(a: Sector, left: Sector, b: Sector)
    requires a != left
    ensures var c := Steps(Cache(seq(BLOCKS, _ => NOTHING), 0, map[]), Fills(BLOCKS, a, left, b));
            && c.pool != [] && Content(c, 0) == a
            && Content(WriteStep(c, BLOCKS, b, Lost(left), Done), 0) == left != a
  {
    var c := State(BLOCKS, a, left, b);
    assert State(0, a, left, b) == Cache(seq(BLOCKS, _ => NOTHING), 0, map[]) by {
      assert Filled(0, a, b) == seq(BLOCKS, _ => NOTHING);
    }
    FillRun(BLOCKS, a, left, b);
    FullVictim(a, b);
    assert c.pool[0] == Entry(0, a, true, true, 1);
    assert Lookup(c.pool, 0) == 0;
    hide Steps, Filled, FilledDisk, Victim, Fills;
    var d := WriteStep(c, BLOCKS, b, Lost(left), Done);
    Evicted(c, b, left);
  }

  lemma Evicted(c: Cache, b: Sector, left: Sector)
    requires c.pool != [] && WriteSlot(c, BLOCKS) == 0 && MustWriteBack(c.pool[0]) && c.pool[0].lba == 0
    requires forall i :: 0 < i < |c.pool| ==> c.pool[i].lba != 0
    ensures Content(WriteStep(c, BLOCKS, b, Lost(left), Done), 0) == left
  {
    var d := WriteStep(c, BLOCKS, b, Lost(left), Done);
    assert d.pool[0].lba == BLOCKS;
    assert Lookup(d.pool, 0) == |d.pool|;
  }
}
