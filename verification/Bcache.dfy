// The sector cache as the kernel runs it: an array of entries changed in place by scan loops (src/kernel/bcache.c).
module Bcache {
  import opened Basics
  import opened SeqArith
  import opened SectorCache

  class BufferCache {
    const pool: array<Entry>
    var clock: nat
    var disk: Disk

    ghost function View(): Cache
      reads this, pool
    {
      Cache(pool[..], clock, disk)
    }

    /** bcache_init over a device holding `contents`. */
    constructor (contents: Disk)
      ensures fresh(pool) && pool.Length == BLOCKS && clock == 0 && disk == contents
      ensures Inv(View()) && forall x :: Content(View(), x) == Get(contents, x)
    {
      pool := new Entry[BLOCKS](_ => Entry(0, [], false, false, 0));
      clock, disk := 0, contents;
    }

    method Find(lba: u32) returns (i: nat)
      ensures i == Lookup(pool[..], lba)
    {
      i := 0;
      while i < pool.Length
        invariant 0 <= i <= pool.Length && forall k :: 0 <= k < i ==> !Holds(pool[k], lba)
      {
        if pool[i].valid && pool[i].lba == lba {
          return;
        }
        i := i + 1;
      }
    }

    /** The scan both miss paths share: the first invalid entry, else the one stamped longest ago. */
    method PickVictim() returns (v: nat)
      requires pool.Length > 0
      ensures v == Victim(pool[..])
    {
      var i, victim, oldest := 0, -1, STAMP_MAX;
      while i < pool.Length
        invariant 0 <= i <= pool.Length && victim == Oldest(pool[..], i)
        invariant oldest == if victim < 0 then STAMP_MAX else pool[victim].stamp
        invariant forall k :: 0 <= k < i ==> pool[k].valid
      {
        if !pool[i].valid {
          return i;
        }
        if pool[i].stamp < oldest {
          oldest := pool[i].stamp;
          victim := i;
        }
        i := i + 1;
      }
      v := if victim < 0 then 0 else victim;
    }

    /** ata_write_sectors of one sector, answered by w. */
    method DeviceWrite(lba: u32, data: Sector, w: Written) returns (ok: bool)
      modifies this
      ensures ok == w.Done? && disk == Put(old(disk), lba, data, w) && clock == old(clock)
    {
      disk := disk[lba := if w.Done? then data else w.left];
      ok := w.Done?;
    }

    /** bcache_read_sector; `wb` and `rd` say how the device answers a write-back and the read. */
    method ReadSector(lba: u32, wb: Written, rd: bool) returns (r: Option<Sector>)
      requires pool.Length > 0
      modifies this, pool
      ensures (View(), r) == ReadStep(old(View()), lba, wb, rd)
    {
      hide Victim, Get;
      var i := Find(lba);
      if i < pool.Length {
        clock := Tick(clock);
        pool[i] := pool[i].(stamp := clock);
        return Some(pool[i].data);
      }
      var v := PickVictim();
      if pool[v].valid && pool[v].dirty {
        var ok := DeviceWrite(pool[v].lba, pool[v].data, wb);
        if !ok {
          return None;
        }
        pool[v] := pool[v].(dirty := false);
      }
      if !rd {
        return None;
      }
      clock := Tick(clock);
      pool[v] := Entry(lba, Get(disk, lba), true, false, clock);
      r := Some(pool[v].data);
    }

    /** The first half of bcache_write_sector: a failed write-back of the evicted entry is not noticed. */
    method ClaimSlot(lba: u32, wb: Written) returns (t: nat)
      requires pool.Length > 0
      modifies this, pool
      ensures t == WriteSlot(old(View()), lba)
      ensures View() ==
              var c := old(View());
              var k := if Holds(c.pool[t], lba) then c else Cleaned(c, t, wb);
              k.(pool := k.pool[t := k.pool[t].(lba := lba, valid := true)])
    {
      hide Victim, Put;
      t := Find(lba);
      if t == pool.Length {
        t := PickVictim();
        if pool[t].valid && pool[t].dirty {
          var _ := DeviceWrite(pool[t].lba, pool[t].data, wb);
          pool[t] := pool[t].(dirty := false);
        }
        pool[t] := pool[t].(lba := lba, valid := true);
      }
    }

    /** bcache_write_sector: the entry takes the buffer, and stays dirty if the device refuses it. */
    method WriteSector(lba: u32, data: Sector, wb: Written, wt: Written) returns (ok: bool)
      requires pool.Length > 0
      modifies this, pool
      ensures View() == WriteStep(old(View()), lba, data, wb, wt) && ok == wt.Done?
    {
      hide Victim, Put, WriteSlot;
      var t := ClaimSlot(lba, wb);
      clock := Tick(clock);
      pool[t] := pool[t].(data := data, stamp := clock, dirty := false);
      ok := DeviceWrite(lba, data, wt);
      if !ok {
        pool[t] := pool[t].(dirty := true);
      }
    }

    /** bcache_flush; `w` says how the device answers for each entry. */
    method Flush(w: nat -> Written)
      modifies this, pool
      ensures View() == FlushFrom(old(View()), 0, w)
    {
      var i := 0;
      while i < pool.Length
        invariant 0 <= i <= pool.Length
        invariant FlushFrom(View(), i, w) == FlushFrom(old(View()), 0, w)
      {
        ghost var before := View();
        if pool[i].valid && pool[i].dirty {
          var ok := DeviceWrite(pool[i].lba, pool[i].data, w(i));
          if ok {
            pool[i] := pool[i].(dirty := false);
          }
        }
        assert View() == FlushOne(before, i, w(i));
        i := i + 1;
      }
    }

    /** bcache_invalidate. */
    method Discard(lba: u32)
      modifies pool
      ensures View() == Invalidate(old(View()), lba)
    {
      var i := 0;
      while i < pool.Length
        invariant 0 <= i <= pool.Length
        invariant forall k :: 0 <= k < i ==> pool[k] == Dropped(old(pool[k]), lba)
        invariant forall k :: i <= k < pool.Length ==> pool[k] == old(pool[k])
      {
        if pool[i].valid && pool[i].lba == lba {
          pool[i] := pool[i].(valid := false, dirty := false);
        }
        i := i + 1;
      }
    }
  }
}
