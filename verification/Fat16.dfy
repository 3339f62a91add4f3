// Cluster allocation and chain resizing on a FAT16 volume (src/drivers/fat16.c).
module Fat16 {
  import opened Basics
  import opened SeqArith
  import opened FatChain
  import opened FatVolume

  function Zeros(n: nat): seq<Sector> { seq(n, _ => ZeroSector()) }

  /** The chain an entry's first cluster stands for: none if it is no data cluster. */
  ghost predicate FileChain(t: Table, max: nat, first: u16, cs: seq<u16>) {
    if IsData(max, first) then Chain(t, max, cs) && cs[0] == first else cs == []
  }

  lemma EntryCount(g: Geometry, d: Disk, t: Table)
    requires FatsHold(g, d, t)
    ensures |t| == g.Entries()
  {}

  lemma ClusterShape(g: Geometry, d: Disk, t: Table, cl: Clusters, c: nat)
    requires Represents(g, d, t, cl) && 2 <= c <= g.MaxCluster()
    ensures |cl| == g.MaxCluster() + 1 && |cl[c]| == g.perCluster
  {
    assert ClusterHolds(g, d, cl, c);
  }

  /** The sector and offset read_fat_entry computes hold the entry. */
  lemma EntryRead(g: Geometry, d: Disk, t: Table, cl: Clusters, c: nat)
    requires GeometryOk(g) && Represents(g, d, t, cl) && c < |t|
    ensures U16At(Get(d, g.FatStart() + c / 256), c % 256 * 2) == t[c]
  {
    hide DataHolds, U16At, Get;
    assert CopyAt(g, d, 0, c) == t[c];
  }

  lemma DataRead(g: Geometry, d: Disk, t: Table, cl: Clusters, c: nat, s: nat)
    requires Represents(g, d, t, cl) && 2 <= c <= g.MaxCluster() && s < g.perCluster
    ensures |cl| == g.MaxCluster() + 1 && |cl[c]| == g.perCluster && cl[c][s] == Get(d, g.ClusterLba(c) + s)
  {
    hide Get, FatsHold;
    assert ClusterHolds(g, d, cl, c);
  }

  lemma DataWritten(g: Geometry, d: Disk, t: Table, cl: Clusters, c: nat, s: nat, data: Sector)
    requires Represents(g, d, t, cl) && 2 <= c <= g.MaxCluster() && s < g.perCluster
    ensures |cl| == g.MaxCluster() + 1 && |cl[c]| == g.perCluster
    ensures Represents(g, d[g.ClusterLba(c) + s := data], t, SetSector(cl, c, s, data))
  {
    hide FatsHold, DataHolds, SetSector;
    ClusterShape(g, d, t, cl, c);
    ClusterWritten(g, d, cl, c, s, data);
    AboveData(g, c, s);
    FatsBelow(g, d, t, g.ClusterLba(c) + s, data);
  }

  lemma TableFits(g: Geometry, d: Disk, t: Table, cl: Clusters)
    requires GeometryOk(g) && Represents(g, d, t, cl)
    ensures TableOk(t, g.MaxCluster()) && g.MaxCluster() >= 1 && |cl| == g.MaxCluster() + 1
  {
    MaxClusterOk(g, t);
  }

  lemma ChainHead(t: Table, max: nat, cs: seq<u16>)
    requires Chain(t, max, cs)
    ensures cs != [] && IsData(max, cs[0]) && FreeAll(t, cs[..0]) == t
  {}

  lemma NotBefore(t: Table, max: nat, cs: seq<u16>, i: nat)
    requires Chain(t, max, cs) && i < |cs|
    ensures cs[i] !in cs[..i] && cs[i] < |t|
  {
    Acyclic(t, max, cs);
  }

  /** With the first i clusters freed, the next one's entry is still the chain's. */
  lemma FreedSoFar(t: Table, max: nat, cs: seq<u16>, i: nat)
    requires Chain(t, max, cs) && i < |cs|
    ensures IsData(max, cs[i]) && cs[i] < |t| && FreeAll(t, cs[..i])[cs[i]] == t[cs[i]]
    ensures i < |cs| - 1 ==> t[cs[i]] == cs[i + 1] && IsData(max, cs[i + 1])
    ensures i == |cs| - 1 <==> t[cs[i]] >= EOC
    ensures FreeAll(t, cs[..i])[cs[i] := FREE_CLUSTER] == FreeAll(t, cs[..i + 1])
    ensures cs[..|cs|] == cs
  {
    hide FreeAll, Chain;
    NotBefore(t, max, cs, i);
    Link(t, max, cs, i);
    if i < |cs| - 1 {
      Link(t, max, cs, i + 1);
    }
    FreeAllAt(t, cs[..i], cs[i]);
    FreedNext(t, cs, i);
  }

  lemma FreedNext(t: Table, cs: seq<u16>, i: nat)
    requires i < |cs| && cs[i] < |t|
    ensures FreeAll(t, cs[..i])[cs[i] := FREE_CLUSTER] == FreeAll(t, cs[..i + 1]) && cs[..|cs|] == cs
  {
    hide FreeAll;
    FreeAllLast(t, cs[..i], cs[i]);
    PrefixStep(cs, i);
  }

  lemma PrefixStep(cs: seq<u16>, i: nat)
    requires i < |cs|
    ensures cs[..i + 1] == cs[..i] + [cs[i]] && cs[..|cs|] == cs
  {}

  lemma {:induction false} FreeAllLast(t: Table, cs: seq<u16>, c: u16)
    requires c < |t|
    ensures FreeAll(t, cs + [c]) == FreeAll(t, cs)[c := FREE_CLUSTER]
    decreases |cs|
  {
    if cs != [] {
      FreeAllLast(if cs[0] < |t| then t[cs[0] := FREE_CLUSTER] else t, cs[1..], c);
      assert (cs + [c])[1..] == cs[1..] + [c];
    }
  }

  /** The clusters appended to a file read as zeros and every other cluster is untouched. */
  ghost predicate Appended(g: Geometry, cl: Clusters, ml: Clusters, cs: seq<u16>, ds: seq<u16>) {
    && |ml| == |cl| && |cs| <= |ds|
    && forall x: u16 :: x < |cl| ==> ml[x] == if x in ds[|cs|..] then Zeros(g.perCluster) else cl[x]
  }

  lemma GrowBegins(t: Table, max: nat, cs: seq<u16>, g: Geometry, cl: Clusters)
    requires Chain(t, max, cs)
    ensures Grown(t, max, cs, t, cs) && Appended(g, cl, cl, cs, cs) && cs != []
  {
    hide FreeCount;
  }

  lemma GrownLink(t: Table, max: nat, cs: seq<u16>, u: Table, ds: seq<u16>, i: nat)
    requires Grown(t, max, cs, u, ds) && i < |ds|
    ensures IsData(max, ds[i]) && ds[i] < |u| && (i == |ds| - 1 <==> u[ds[i]] >= EOC) && TableOk(u, max)
    ensures i < |ds| - 1 ==> u[ds[i]] == ds[i + 1] && IsData(max, ds[i + 1])
  {
    hide FreeCount, Chain;
    Link(u, max, ds, i);
    if i < |ds| - 1 {
      Link(u, max, ds, i + 1);
    }
  }

  lemma GrowStep(g: Geometry, t: Table, cl: Clusters, cs: seq<u16>, u: Table, ml: Clusters, ds: seq<u16>, c: u16)
    requires Grown(t, g.MaxCluster(), cs, u, ds) && Appended(g, cl, ml, cs, ds) && |ml| == g.MaxCluster() + 1
    requires IsData(g.MaxCluster(), c) && u[c] == FREE_CLUSTER && ds != []
    ensures Grown(t, g.MaxCluster(), cs, u[c := EOF][ds[|ds| - 1] := c], ds + [c])
    ensures Appended(g, cl, ml[c := Zeros(g.perCluster)], cs, ds + [c])
  {
    hide FreeCount, Chain, Zeros;
    GrowOne(t, g.MaxCluster(), cs, u, ds, c);
    GrownLink(t, g.MaxCluster(), cs, u, ds, |ds| - 1);
    assert (ds + [c])[|cs|..] == ds[|cs|..] + [c];
  }

  /** u is t with the chain cs ending after n clusters and the rest freed. */
  ghost predicate Trimmed(t: Table, max: nat, cs: seq<u16>, u: Table, n: nat) {
    && |u| == |t| && 0 < n <= |cs| && Chain(u, max, cs[..n])
    && (forall i :: n <= i < |cs| ==> cs[i] < |t| && u[cs[i]] == FREE_CLUSTER)
    && (forall c: u16 :: c < |t| && c !in cs ==> u[c] == t[c])
    && TableOk(t, max) && FreeCount(u, max) + n == FreeCount(t, max) + |cs|
  }

  lemma TrimFacts(t: Table, max: nat, cs: seq<u16>, n: nat)
    requires Chain(t, max, cs) && 0 < n <= |cs|
    ensures cs[n - 1] < |t| && (n < |cs| <==> IsData(max, t[cs[n - 1]]))
    ensures Trimmed(t, max, cs, FreeAll(t[cs[n - 1] := EOF], cs[n..]), n)
    ensures n < |cs| ==> t[cs[n - 1]] == cs[n] && Chain(t[cs[n - 1] := EOF], max, cs[n..])
    ensures n == |cs| ==> Trimmed(t, max, cs, t, n) && Trimmed(t, max, cs, t[cs[n - 1] := EOF], n)
  {
    hide Chain, FreeCount;
    Link(t, max, cs, n - 1);
    CutKeeps(t, max, cs, n);
    CutCount(t, max, cs, n);
    ChainBounds(t, max, cs);
    if n < |cs| {
      CutTail(t, max, cs, n, EOF);
    } else {
      assert cs[..n] == cs && cs[n..] == [];
    }
  }

  lemma ChainBounds(t: Table, max: nat, cs: seq<u16>)
    requires Chain(t, max, cs)
    ensures TableOk(t, max) && forall i :: 0 <= i < |cs| ==> cs[i] < |t|
  {}

  /**
   * What a resize leaves: the longest prefix the two chains can share, dropped clusters free, appended ones taken from
   * the free ones, every other entry as it was, and free plus chained clusters conserved.
   */
  ghost predicate Resized(t: Table, max: nat, cs: seq<u16>, u: Table, ds: seq<u16>) {
    var k := Min(|cs|, |ds|);
    && |u| == |t| && TableOk(t, max)
    && ds[..k] == cs[..k]
    && (forall i :: k <= i < |cs| ==> cs[i] < |t| && u[cs[i]] == FREE_CLUSTER)
    && (forall i :: k <= i < |ds| ==> ds[i] < |t| && t[ds[i]] == FREE_CLUSTER)
    && (forall c: u16 :: c < |t| && c !in cs && c !in ds ==> u[c] == t[c])
    && FreeCount(u, max) + |ds| == FreeCount(t, max) + |cs|
  }

  /** Required 0: the whole chain is freed. */
  lemma FreedWhole(t: Table, max: nat, cs: seq<u16>, g: Geometry, cl: Clusters)
    requires TableOk(t, max) && (cs != [] ==> Chain(t, max, cs))
    ensures Resized(t, max, cs, FreeAll(t, cs), []) && Appended(g, cl, cl, cs[..0], [])
    ensures (cs == [] ==> FreeAll(t, cs) == t)
  {
    hide FreeCount, Chain, FreeAll;
    if cs != [] {
      Acyclic(t, max, cs);
      forall i | 0 <= i < |cs|
        ensures IsData(max, cs[i]) && t[cs[i]] != FREE_CLUSTER
      {
        Link(t, max, cs, i);
      }
    }
    FreeAllCount(t, max, cs);
    FreeNothing(t);
    forall c: u16 | c < |t|
      ensures FreeAll(t, cs)[c] == if c in cs then FREE_CLUSTER else t[c]
    {
      FreeAllAt(t, cs, c);
    }
  }

  lemma FreeNothing(t: Table)
    ensures FreeAll(t, []) == t
  {}

  lemma FirstCluster(g: Geometry, t: Table, cl: Clusters, c: u16)
    requires TableOk(t, g.MaxCluster()) && IsData(g.MaxCluster(), c) && t[c] == FREE_CLUSTER
    requires |cl| == g.MaxCluster() + 1
    ensures Grown(t, g.MaxCluster(), [], t[c := EOF], [c]) && Appended(g, cl, cl[c := Zeros(g.perCluster)], [], [c])
  {
    hide FreeCount, Zeros;
    FreeCountSet(t, g.MaxCluster(), c, EOF);
  }

  lemma GrownChain(t: Table, max: nat, cs: seq<u16>, u: Table, ds: seq<u16>)
    requires Grown(t, max, cs, u, ds)
    ensures TableOk(u, max) && |u| == |t| && (ds != [] ==> Chain(u, max, ds))
    ensures FreeCount(u, max) + |ds| == FreeCount(t, max) + |cs| && |cs| <= |ds|
  {
    hide FreeCount, Chain;
  }

  lemma GrownTwice(g: Geometry, t: Table, cl: Clusters, cs: seq<u16>, u: Table, ml: Clusters, ds: seq<u16>,
          w: Table, nl: Clusters, es: seq<u16>)
    requires Grown(t, g.MaxCluster(), cs, u, ds) && Appended(g, cl, ml, cs, ds)
    requires Grown(u, g.MaxCluster(), ds, w, es) && Appended(g, ml, nl, ds, es)
    ensures Grown(t, g.MaxCluster(), cs, w, es) && Appended(g, cl, nl, cs, es) && |nl| == |cl| && |ds| <= |es|
    ensures ds != [] ==> es[0] == ds[0]
  {
    hide FreeCount, Chain, Zeros;
    assert ds != [] ==> es[..|ds|][0] == es[0];
    assert es[..|cs|] == es[..|ds|][..|cs|];
    forall i | |cs| <= i < |es|
      ensures es[i] < |t| && t[es[i]] == FREE_CLUSTER
    {
      if i < |ds| {
        assert es[..|ds|][i] == es[i];
      } else {
        WasFree(t, g.MaxCluster(), cs, u, ds, es[i]);
      }
    }
    forall c: u16 | c < |t| && c !in es
      ensures w[c] == t[c]
    {
      assert c !in es[..|ds|];
    }
    AppendedTwice(g, cl, cs, ml, ds, nl, es);
  }

  lemma WasFree(t: Table, max: nat, cs: seq<u16>, u: Table, ds: seq<u16>, c: u16)
    requires Grown(t, max, cs, u, ds) && c < |t| && u[c] == FREE_CLUSTER
    ensures t[c] == FREE_CLUSTER
  {
    hide FreeCount, Chain;
    if ds != [] {
      FreeNotInChain(u, max, ds, c);
    }
  }

  lemma AppendedTwice(g: Geometry, cl: Clusters, cs: seq<u16>, ml: Clusters, ds: seq<u16>, nl: Clusters, es: seq<u16>)
    requires Appended(g, cl, ml, cs, ds) && Appended(g, ml, nl, ds, es) && es[..|ds|] == ds
    ensures Appended(g, cl, nl, cs, es)
  {
    hide Zeros;
    assert es[|cs|..] == ds[|cs|..] + es[|ds|..];
  }

  /** Cutting what was lengthened first: only one of the two did anything. */
  lemma CutGrown(g: Geometry, t: Table, cl: Clusters, cs: seq<u16>, w: Table, ml: Clusters, whole: seq<u16>,
          u: Table, n: nat)
    requires Grown(t, g.MaxCluster(), cs, w, whole) && Trimmed(w, g.MaxCluster(), whole, u, n)
    requires |whole| == (if n <= |cs| then |cs| else n) && Appended(g, cl, ml, cs, whole)
    ensures Resized(t, g.MaxCluster(), cs, u, whole[..n]) && Appended(g, cl, ml, cs[..Min(|cs|, n)], whole[..n])
    ensures Chain(u, g.MaxCluster(), whole[..n]) && TableOk(u, g.MaxCluster()) && |u| == |t|
  {
    hide FreeCount, Chain, Zeros;
    var ds := whole[..n];
    if n <= |cs| {
      assert whole == cs;
    } else {
      assert ds == whole;
      assert cs[..|cs|] == cs;
      forall c: u16 | c < |t| && c !in cs && c !in ds
        ensures u[c] == t[c]
      {}
    }
    assert whole[..|cs|][..Min(|cs|, n)] == whole[..Min(|cs|, n)];
  }

  class Volume {
    const g: Geometry
    var disk: Disk
    ghost var table: Table
    ghost var clusters: Clusters

    ghost predicate Valid()
      reads this
    {
      GeometryOk(g) && Represents(g, disk, table, clusters)
    }

    constructor (geometry: Geometry, contents: Disk, ghost t: Table, ghost cl: Clusters)
      requires GeometryOk(geometry) && Represents(geometry, contents, t, cl)
      ensures Valid() && g == geometry && disk == contents && table == t && clusters == cl
    {
      g, disk, table, clusters := geometry, contents, t, cl;
    }

    /** read_fat_entry: the first copy of the table is read. */
    method ReadEntry(c: nat) returns (v: u16)
      requires Valid() && c < |table|
      ensures v == table[c]
    {
      hide Represents, U16At;
      EntryRead(g, disk, table, clusters, c);
      EntryPlace(c);
      var offset := c * 2;
      v := U16At(Get(disk, g.FatStart() + offset / SECTOR), offset % SECTOR);
    }

    /** write_fat_entry: every copy of the table takes the value. */
    method WriteEntry(c: nat, v: u16)
      requires Valid() && c < |table|
      modifies this
      ensures Valid() && table == old(table)[c := v] && clusters == old(clusters)
      ensures RootKept(g, old(disk), disk)
    {
      hide GeometryOk, DataHolds, FatsHold, PartWritten, CopyAt, RootKept;
      RootSame(g, disk);
      PartBegins(g, disk, table, c, v);
      var k := 0;
      EntryCount(g, disk, table);
      while k < g.fatCount
        invariant k <= g.fatCount && table == old(table) && clusters == old(clusters)
        invariant PartWritten(g, disk, table, c, v, k) && DataHolds(g, disk, clusters)
        invariant RootKept(g, old(disk), disk)
      {
        var lba := g.FatStart() + k * g.fatSectors + c * 2 / SECTOR;
        EntryPlace(c);
        FatBelowRoot(g, k, c);
        PartStep(g, disk, table, c, v, k);
        DataAbove(g, disk, clusters, lba, PutU16(Get(disk, lba), c * 2 % SECTOR, v));
        RootStep(g, old(disk), disk, lba, PutU16(Get(disk, lba), c * 2 % SECTOR, v));
        disk := disk[lba := PutU16(Get(disk, lba), c * 2 % SECTOR, v)];
        k := k + 1;
      }
      PartEnds(g, disk, table, c, v);
      table := table[c := v];
    }

    /** Sector s of data cluster c is written. */
    method WriteData(c: u16, s: nat, data: Sector)
      requires Valid() && IsData(g.MaxCluster(), c) && s < g.perCluster
      modifies this
      ensures Valid() && table == old(table) && |old(clusters)| == g.MaxCluster() + 1
      ensures |old(clusters)[c]| == g.perCluster
      ensures clusters == SetSector(old(clusters), c, s, data) && RootKept(g, old(disk), disk)
    {
      hide GeometryOk, Represents, SetSector, RootKept;
      RootSame(g, disk);
      AboveData(g, c, s);
      RootStep(g, disk, disk, g.ClusterLba(c) + s, data);
      DataWritten(g, disk, table, clusters, c, s, data);
      disk := disk[g.ClusterLba(c) + s := data];
      clusters := SetSector(clusters, c, s, data);
    }

    method ReadData(c: u16, s: nat) returns (data: Sector)
      requires Valid() && IsData(g.MaxCluster(), c) && s < g.perCluster
      ensures |clusters| == g.MaxCluster() + 1 && |clusters[c]| == g.perCluster && data == clusters[c][s]
    {
      hide GeometryOk, Represents;
      DataRead(g, disk, table, clusters, c, s);
      data := Get(disk, g.ClusterLba(c) + s);
    }

    /** clear_cluster on a data cluster. */
    method ClearCluster(c: u16)
      requires Valid() && IsData(g.MaxCluster(), c)
      modifies this
      ensures Valid() && table == old(table) && |old(clusters)| == g.MaxCluster() + 1
      ensures clusters == old(clusters)[c := Zeros(g.perCluster)] && RootKept(g, old(disk), disk)
    {
      hide GeometryOk, Represents, RootKept;
      RootSame(g, disk);
      ClusterShape(g, disk, table, clusters, c);
      var s := 0;
      while s < g.perCluster
        invariant 0 <= s <= g.perCluster && Valid() && table == old(table)
        invariant |clusters| == |old(clusters)| && |clusters[c]| == g.perCluster
        invariant clusters == old(clusters)[c := clusters[c]]
        invariant forall r :: 0 <= r < s ==> clusters[c][r] == ZeroSector()
        invariant RootKept(g, old(disk), disk)
      {
        ghost var d := disk;
        WriteData(c, s, ZeroSector());
        RootTrans(g, old(disk), d, disk);
        s := s + 1;
      }
      assert clusters[c] == Zeros(g.perCluster);
    }

    /** allocate_cluster_unlocked: the lowest free cluster, marked end of chain and zeroed. */
    method AllocateCluster() returns (ok: bool, c: u16)
      requires Valid()
      modifies this
      ensures Valid() && TableOk(old(table), g.MaxCluster()) && (ok <==> FreeCount(old(table), g.MaxCluster()) > 0)
      ensures !ok ==> table == old(table) && clusters == old(clusters)
      ensures ok ==> IsData(g.MaxCluster(), c) && old(table)[c] == FREE_CLUSTER && table == old(table)[c := EOF]
      ensures ok ==> forall x :: 2 <= x < c ==> old(table)[x] != FREE_CLUSTER
      ensures ok ==> |old(clusters)| == g.MaxCluster() + 1 && clusters == old(clusters)[c := Zeros(g.perCluster)]
      ensures RootKept(g, old(disk), disk)
    {
      hide GeometryOk, Represents, RootKept;
      RootSame(g, disk);
      var max := g.MaxCluster();
      TableFits(g, disk, table, clusters);
      NoneFree(table, max);
      c := 2;
      while c <= max
        invariant 2 <= c <= max + 1
        invariant Valid() && table == old(table) && clusters == old(clusters) && disk == old(disk)
        invariant forall x :: 2 <= x < c ==> table[x] != FREE_CLUSTER
        decreases max + 1 - c
      {
        var value := ReadEntry(c);
        if value == FREE_CLUSTER {
          WriteEntry(c, EOF);
          ghost var d := disk;
          ClearCluster(c);
          RootTrans(g, old(disk), d, disk);
          return true, c;
        }
        c := c + 1;
      }
      ok := false;
    }

    /** free_chain_from on a chain: the guard never stops it early. */
    method FreeChain(first: u16, ghost cs: seq<u16>)
      requires Valid() && Chain(table, g.MaxCluster(), cs) && cs[0] == first
      modifies this
      ensures Valid() && table == FreeAll(old(table), cs) && clusters == old(clusters)
      ensures RootKept(g, old(disk), disk)
    {
      hide GeometryOk, Represents, FreeAll, Chain, RootKept;
      RootSame(g, disk);
      var guard := g.MaxCluster();
      var c := first;
      ghost var i := 0;
      ghost var t := table;
      ChainFits(t, g.MaxCluster(), cs);
      ChainHead(t, g.MaxCluster(), cs);
      while IsData(g.MaxCluster(), c) && guard > 0
        invariant Valid() && clusters == old(clusters) && t == old(table) && |table| == |t|
        invariant 0 <= i < |cs| && c == cs[i] && guard + i == g.MaxCluster()
        invariant table == FreeAll(t, cs[..i]) && IsData(g.MaxCluster(), c) && RootKept(g, old(disk), disk)
        decreases guard
      {
        guard := guard - 1;
        FreedSoFar(t, g.MaxCluster(), cs, i);
        var next := ReadEntry(c);
        ghost var d := disk;
        WriteEntry(c, FREE_CLUSTER);
        RootTrans(g, old(disk), d, disk);
        if next >= EOC || next == BAD_CLUSTER || !IsData(g.MaxCluster(), next) {
          break;
        }
        c := next;
        i := i + 1;
      }
    }

    /**
     * The loop resize_chain_unlocked and ensure_chain_capacity share: walk to the required-th cluster, appending where
     * the chain ends. `cs` is the chain from `first`; the chain afterwards is `ds`.
     */
    method Lengthen(first: u16, required: nat, ghost cs: seq<u16>) returns (ok: bool, last: u16, ghost ds: seq<u16>)
      requires Valid() && Chain(table, g.MaxCluster(), cs) && cs[0] == first
      modifies this
      ensures Valid() && Grown(old(table), g.MaxCluster(), cs, table, ds)
      ensures Appended(g, old(clusters), clusters, cs, ds) && RootKept(g, old(disk), disk)
      ensures ok ==> |ds| == (if required <= |cs| then |cs| else required) &&
                     last == ds[if required == 0 then 0 else required - 1]
      ensures !ok ==> |ds| < required && FreeCount(table, g.MaxCluster()) == 0
    {
      hide GeometryOk, Represents, Chain, Grown, Appended, FreeCount, RootKept;
      RootSame(g, disk);
      last, ds := first, cs;
      var count := 1;
      GrowBegins(table, g.MaxCluster(), cs, g, clusters);
      while count < required
        invariant Valid() && Grown(old(table), g.MaxCluster(), cs, table, ds)
        invariant Appended(g, old(clusters), clusters, cs, ds) && RootKept(g, old(disk), disk)
        invariant 1 <= count <= |ds| && last == ds[count - 1] && (count <= required || count == 1)
        invariant |ds| == if count <= |cs| then |cs| else count
      {
        GrownLink(old(table), g.MaxCluster(), cs, table, ds, count - 1);
        var next := ReadEntry(last);
        if next >= EOC {
          ghost var t, cl, d := table, clusters, disk;
          var found, c := AllocateCluster();
          RootTrans(g, old(disk), d, disk);
          if !found {
            return false, last, ds;
          }
          next := c;
          GrowStep(g, old(table), old(clusters), cs, t, cl, ds, c);
          d := disk;
          WriteEntry(last, next);
          RootTrans(g, old(disk), d, disk);
          ds := ds + [next];
        } else if !IsData(g.MaxCluster(), next) || next == BAD_CLUSTER || next == FREE_CLUSTER {
          return false, last, ds;
        }
        last := next;
        count := count + 1;
      }
      ok := true;
    }

    /** The end of resize_chain_unlocked: what lies behind the required-th cluster is freed. */
    method CutBehind(last: u16, required: nat, ghost cs: seq<u16>)
      requires Valid() && Chain(table, g.MaxCluster(), cs) && 0 < required <= |cs| && last == cs[required - 1]
      modifies this
      ensures Valid() && clusters == old(clusters) && |table| == |old(table)|
      ensures Trimmed(old(table), g.MaxCluster(), cs, table, required) && RootKept(g, old(disk), disk)
    {
      hide GeometryOk, Represents, Chain, Trimmed, Cut, RootKept;
      RootSame(g, disk);
      ghost var t := table;
      TrimFacts(t, g.MaxCluster(), cs, required);
      var next := ReadEntry(last);
      if IsData(g.MaxCluster(), next) {
        WriteEntry(last, EOF);
        ghost var d := disk;
        FreeChain(next, cs[required..]);
        RootTrans(g, old(disk), d, disk);
      } else if next != EOF && next != EOC {
        WriteEntry(last, EOF);
      }
    }

    /** resize_chain_unlocked: `cs` is the file's chain before and `ds` after; a first cluster of 0 means none. */
    method Resize(first: u16, required: nat, ghost cs: seq<u16>) returns (ok: bool, first': u16, ghost ds: seq<u16>)
      requires Valid() && FileChain(table, g.MaxCluster(), first, cs)
      modifies this
      ensures Valid() && |table| == |old(table)| && |clusters| == |old(clusters)| && TableOk(table, g.MaxCluster())
      ensures (ok <==> required <= |cs| + FreeCount(old(table), g.MaxCluster())) && RootKept(g, old(disk), disk)
      ensures ok ==> |ds| == required && FileChain(table, g.MaxCluster(), first', ds)
      ensures ok ==> Resized(old(table), g.MaxCluster(), cs, table, ds) &&
                     Appended(g, old(clusters), clusters, cs[..Min(|cs|, required)], ds)
    {
      hide GeometryOk, Represents, Chain, Grown, Appended, FreeCount, Resized, Trimmed, FreeAll, RootKept;
      RootSame(g, disk);
      TableFits(g, disk, table, clusters);
      ghost var t, cl, max := table, clusters, g.MaxCluster();
      first', ds, ok := first, cs, true;
      if required == 0 {
        if IsData(g.MaxCluster(), first) {
          FreeChain(first, cs);
        }
        first', ds := 0, [];
        FreedWhole(t, max, cs, g, cl);
        return;
      }
      if !IsData(g.MaxCluster(), first) {
        ok, first' := AllocateCluster();
        if !ok {
          return;
        }
        ds := [first'];
        FirstCluster(g, t, cl, first');
      } else {
        GrowBegins(t, max, cs, g, cl);
      }
      ghost var u, ml, mid, d := table, clusters, ds, disk;
      GrownLink(t, max, cs, u, ds, 0);
      GrownChain(t, max, cs, u, ds);
      var last;
      ok, last, ds := Lengthen(first', required, ds);
      RootTrans(g, old(disk), d, disk);
      GrownTwice(g, t, cl, cs, u, ml, mid, table, clusters, ds);
      ghost var w, whole := table, ds;
      GrownChain(t, max, cs, w, whole);
      if !ok {
        return;
      }
      d := disk;
      CutBehind(last, required, whole);
      RootTrans(g, old(disk), d, disk);
      ds := whole[..required];
      CutGrown(g, t, cl, cs, w, clusters, whole, table, required);
    }
  }
}
