// read_chain and write_chain (src/drivers/fat16.c).
module FatFile {
  import opened Basics
  import opened SeqArith
  import opened FatChain
  import opened FatVolume
  import opened Fat16
  import opened FatContent
  import opened FatEntry

  /** Clusters outside cs are untouched. */
  ghost predicate Outside(cl: Clusters, ml: Clusters, cs: seq<u16>) {
    |ml| == |cl| && forall x: u16 :: x < |cl| && x !in cs ==> ml[x] == cl[x]
  }

  lemma OutsideChain(a: Clusters, b: Clusters, c: Clusters, cs: seq<u16>)
    requires Outside(a, b, cs) && Outside(b, c, cs)
    ensures Outside(a, c, cs)
  {}

  lemma OutsideSet(cl: Clusters, cs: seq<u16>, c: u16, s: nat, data: Sector)
    requires c in cs && c < |cl| && s < |cl[c]|
    ensures Outside(cl, SetSector(cl, c, s, data), cs)
  {}

  /** One sector's worth of write_chain: bytes of the buffer go into sector s of the file's k-th cluster. */
  method WritePart(v: Volume, cluster: u16, s: nat, at: nat, bytes: seq<byte>, ghost cs: seq<u16>, ghost k: nat)
    requires v.Valid() && Chain(v.table, v.g.MaxCluster(), cs) && k < |cs| && cs[k] == cluster
    requires s < v.g.perCluster && at + |bytes| <= SECTOR
    modifies v
    ensures v.Valid() && v.table == old(v.table) && Outside(old(v.clusters), v.clusters, cs)
    ensures RootKept(v.g, old(v.disk), v.disk)
    ensures Row(k, v.g.perCluster) + s < |Sectors(old(v.clusters), cs)|
    ensures Sectors(v.clusters, cs) ==
            var q, ss := Row(k, v.g.perCluster) + s, Sectors(old(v.clusters), cs); ss[q := Patch(ss[q], at, bytes)]
  {
    hide GeometryOk, Represents, Chain, Sectors, Row, SetSector, Outside, Rows;
    Link(v.table, v.g.MaxCluster(), cs, k);
    RowsHold(v.g, v.disk, v.table, v.clusters, cs);
    SectorAt(v.clusters, cs, v.g.perCluster, k, s);
    ClusterShape(v.g, v.disk, v.table, v.clusters, cluster);
    ghost var before := v.clusters[cluster][s];
    var buffer: seq<byte> := ZeroSector();
    if at != 0 || |bytes| != SECTOR {
      buffer := v.ReadData(cluster, s);
    }
    buffer := buffer[..at] + bytes + buffer[at + |bytes|..];
    assert buffer == Patch(before, at, bytes);
    SectorSet(v.clusters, cs, v.g.perCluster, k, s, buffer);
    OutsideSet(v.clusters, cs, cluster, s, buffer);
    v.WriteData(cluster, s, buffer);
  }

  /** write_chain's inner loop over the sectors of one cluster, from byte `start` of it on. */
  method WriteCluster(v: Volume, cluster: u16, start: nat, offset: nat, data: seq<byte>, written: nat,
          ghost cs: seq<u16>, ghost k: nat, ghost rs: seq<Sector>)
    returns (w: nat)
    requires v.Valid() && Chain(v.table, v.g.MaxCluster(), cs) && k < |cs| && cs[k] == cluster
    requires written < |data| && start < SECTOR * v.g.perCluster
    requires offset + written == SECTOR * Row(k, v.g.perCluster) + start
    requires Spliced(rs, Sectors(v.clusters, cs), offset, data[..written])
    modifies v
    ensures v.Valid() && v.table == old(v.table) && Outside(old(v.clusters), v.clusters, cs)
    ensures RootKept(v.g, old(v.disk), v.disk)
    ensures written <= w <= |data| && Spliced(rs, Sectors(v.clusters, cs), offset, data[..w])
    ensures w == Min(|data|, written + SECTOR * v.g.perCluster - start)
  {
    hide GeometryOk, Represents, Chain, Sectors, Row, Outside, Spliced, Patch, RootKept;
    RootSame(v.g, v.disk);
    w := written;
    var s := 0;
    NothingOutside(v.clusters, cs);
    while s < v.g.perCluster && w < |data|
      invariant v.Valid() && v.table == old(v.table) && Outside(old(v.clusters), v.clusters, cs)
      invariant RootKept(v.g, old(v.disk), v.disk)
      invariant 0 <= s <= v.g.perCluster && written <= w <= |data|
      invariant w <= written + SECTOR * v.g.perCluster - start
      invariant w < |data| ==> offset + w == SECTOR * Row(k, v.g.perCluster) + Max(SECTOR * s, start)
      invariant Spliced(rs, Sectors(v.clusters, cs), offset, data[..w])
      decreases v.g.perCluster - s
    {
      if SECTOR * s + SECTOR > start {
        var at := if start > SECTOR * s then start - SECTOR * s else 0;
        var n := Min(SECTOR - at, |data| - w);
        ghost var cl, d := v.clusters, v.disk;
        WritePart(v, cluster, s, at, data[w..w + n], cs, k);
        RootTrans(v.g, old(v.disk), d, v.disk);
        SpliceStep(rs, Sectors(cl, cs), offset, data, w, n, Row(k, v.g.perCluster) + s, at);
        OutsideChain(old(v.clusters), cl, v.clusters, cs);
        w := w + n;
      }
      s := s + 1;
    }
  }

  lemma NothingOutside(cl: Clusters, cs: seq<u16>)
    ensures Outside(cl, cl, cs)
  {}

  /** write_chain's outer loop: from byte `start` of the k-th cluster until the buffer or the chain ends. */
  method WriteFrom(v: Volume, first: u16, start: nat, offset: nat, data: seq<byte>, ghost cs: seq<u16>, ghost k0: nat)
    returns (w: nat)
    requires v.Valid() && Chain(v.table, v.g.MaxCluster(), cs) && k0 < |cs| && cs[k0] == first && data != []
    requires start < SECTOR * v.g.perCluster && offset == SECTOR * Row(k0, v.g.perCluster) + start
    modifies v
    ensures v.Valid() && v.table == old(v.table) && Outside(old(v.clusters), v.clusters, cs)
    ensures RootKept(v.g, old(v.disk), v.disk)
    ensures w <= |data| && Spliced(Sectors(old(v.clusters), cs), Sectors(v.clusters, cs), offset, data[..w])
    ensures w == Min(|data|, SECTOR * Row(|cs|, v.g.perCluster) - offset)
  {
    hide GeometryOk, Represents, Chain, Sectors, Row, Outside, Spliced, IsData, RootKept;
    RootSame(v.g, v.disk);
    var cluster, from: nat := first, start;
    ghost var k := k0;
    ghost var rs := Sectors(v.clusters, cs);
    w := 0;
    SplicedNone(rs, offset);
    NothingOutside(v.clusters, cs);
    assert data[..0] == [];
    RowStep(k0, v.g.perCluster);
    RowMono(k0 + 1, |cs|, v.g.perCluster);
    while w < |data|
      invariant v.Valid() && v.table == old(v.table) && Outside(old(v.clusters), v.clusters, cs)
      invariant RootKept(v.g, old(v.disk), v.disk)
      invariant k < |cs| && cluster == cs[k] && 0 <= w <= |data|
      invariant Spliced(rs, Sectors(v.clusters, cs), offset, data[..w])
      invariant w < |data| ==> from < SECTOR * v.g.perCluster && offset + w == SECTOR * Row(k, v.g.perCluster) + from
      invariant w <= SECTOR * Row(|cs|, v.g.perCluster) - offset
      decreases |cs| - k, |data| - w
    {
      Link(v.table, v.g.MaxCluster(), cs, k);
      RowStep(k, v.g.perCluster);
      RowMono(k + 1, |cs|, v.g.perCluster);
      ghost var cl, d := v.clusters, v.disk;
      w := WriteCluster(v, cluster, from, offset, data, w, cs, k, rs);
      RootTrans(v.g, old(v.disk), d, v.disk);
      OutsideChain(old(v.clusters), cl, v.clusters, cs);
      from := 0;
      if w < |data| {
        NextIsData(v.table, v.g.MaxCluster(), cs, k);
        var next := v.ReadEntry(cluster);
        if !IsData(v.g.MaxCluster(), next) || next >= EOC || next == BAD_CLUSTER {
          break;
        }
        cluster := next;
        k := k + 1;
      }
    }
  }

  lemma NextIsData(t: Table, max: nat, cs: seq<u16>, k: nat)
    requires Chain(t, max, cs) && k < |cs|
    ensures cs[k] < |t| && (k < |cs| - 1 <==> IsData(max, t[cs[k]]))
    ensures (IsData(max, t[cs[k]]) ==> t[cs[k]] < BAD_CLUSTER)
    ensures k < |cs| - 1 ==> t[cs[k]] == cs[k + 1]
  {
    Link(t, max, cs, k);
  }

  // ---- making room ----

  const WORD32: nat := 0x1_0000_0000

  function ClusterSize(g: Geometry): (z: nat)
    ensures g.perCluster > 0 ==> z > 0
  {
    g.perCluster * SECTOR
  }

  /** The cluster of a file an offset falls in, and the byte within it. */
  function Skip(g: Geometry, offset: nat): nat
    requires g.perCluster > 0
  {
    DivMod(offset, ClusterSize(g)); offset / ClusterSize(g)
  }

  function Rest(g: Geometry, offset: nat): nat
    requires g.perCluster > 0
  {
    DivMod(offset, ClusterSize(g)); offset % ClusterSize(g)
  }

  /** clusters_required_for_size, on 32-bit words: the rounding may wrap. */
  function Required(g: Geometry, size: nat): nat
    requires g.perCluster > 0
  {
    var z := ClusterSize(g);
    if size == 0 then 1 else DivMod((size + z - 1) % WORD32, z); (size + z - 1) % WORD32 / z
  }

  /** The rounding covers the size exactly when it does not wrap; when it wraps the answer is no cluster at all. */
  lemma RequiredExactly(g: Geometry, size: nat)
    requires GeometryOk(g) && 0 < size < WORD32
    ensures size <= Required(g, size) * ClusterSize(g) <==> size + ClusterSize(g) - 1 < WORD32
    ensures size + ClusterSize(g) - 1 >= WORD32 ==> Required(g, size) == 0
  {
    var z, n := ClusterSize(g), size + ClusterSize(g) - 1;
    if n < WORD32 {
      DivMod(n, z);
    } else {
      Small(n - WORD32, z);
    }
  }

  /** So for the largest size on a volume with clusters of 64 KiB: no cluster is asked for. */
  lemma RequiredWraps()
    ensures var g := Geometry(0, 1, 2, 250, 32, 128, 0x80_0000); GeometryOk(g) && Required(g, WORD32 - 1) == 0
  {
    RequiredExactly(Geometry(0, 1, 2, 250, 32, 128, 0x80_0000), WORD32 - 1);
  }

  lemma Small(x: nat, n: nat)
    requires x < n
    ensures x / n == 0
  {
    DivMod(x, n);
    if x / n >= 1 {
      MulMono(1, x / n, n);
    }
  }

  lemma Regroup(k: nat, p: nat)
    ensures k * (p * SECTOR) == SECTOR * Row(k, p)
  {
    assert k * (p * SECTOR) == k * p * SECTOR;
  }

  lemma OffsetSplit(g: Geometry, offset: nat)
    requires g.perCluster > 0
    ensures Rest(g, offset) < SECTOR * g.perCluster
    ensures offset == SECTOR * Row(Skip(g, offset), g.perCluster) + Rest(g, offset)
  {
    hide Row;
    var z := ClusterSize(g);
    DivMod(offset, z);
    Regroup(offset / z, g.perCluster);
  }

  /** ensure_chain_capacity: `cs` is the file's chain before and `ds` after, also when room ran out on the way. */
  method EnsureCapacity(v: Volume, first: u16, end: nat, ghost cs: seq<u16>)
    returns (ok: bool, first': u16, ghost ds: seq<u16>)
    requires v.Valid() && FileChain(v.table, v.g.MaxCluster(), first, cs)
    modifies v
    ensures v.Valid() && Grown(old(v.table), v.g.MaxCluster(), cs, v.table, ds)
    ensures Appended(v.g, old(v.clusters), v.clusters, cs, ds)
    ensures FileChain(v.table, v.g.MaxCluster(), first', ds)
    ensures v.g.perCluster > 0 && RootKept(v.g, old(v.disk), v.disk)
    ensures ok ==> ds != [] && |ds| >= Required(v.g, end)
    ensures !ok ==> FreeCount(v.table, v.g.MaxCluster()) == 0 && (|ds| < Required(v.g, end) || ds == [])
  {
    hide Represents, Chain, Grown, Appended, FreeCount, Required, RootKept;
    RootSame(v.g, v.disk);
    ghost var t, cl, max := v.table, v.clusters, v.g.MaxCluster();
    TableFits(v.g, v.disk, v.table, v.clusters);
    first', ds := first, cs;
    if !IsData(v.g.MaxCluster(), first) {
      Unallocated(v.g, t, cl);
      ok, first' := v.AllocateCluster();
      if !ok {
        first' := first;
        return;
      }
      ds := [first'];
      FirstCluster(v.g, t, cl, first');
    } else {
      GrowBegins(t, max, cs, v.g, cl);
    }
    ghost var u, ml, mid, d := v.table, v.clusters, ds, v.disk;
    GrownLink(t, max, cs, u, ds, 0);
    GrownChain(t, max, cs, u, ds);
    var last;
    ok, last, ds := v.Lengthen(first', Required(v.g, end), ds);
    RootTrans(v.g, old(v.disk), d, v.disk);
    GrownTwice(v.g, t, cl, cs, u, ml, mid, v.table, v.clusters, ds);
    GrownChain(t, max, cs, v.table, ds);
  }

  lemma Unallocated(g: Geometry, t: Table, cl: Clusters)
    requires TableOk(t, g.MaxCluster())
    ensures Grown(t, g.MaxCluster(), [], t, []) && Appended(g, cl, cl, [], [])
  {
    hide FreeCount;
  }

  /** cluster_for_offset. */
  method ClusterForOffset(v: Volume, first: u16, offset: nat, ghost cs: seq<u16>)
    returns (ok: bool, cluster: u16, rest: nat)
    requires v.Valid() && FileChain(v.table, v.g.MaxCluster(), first, cs) && v.g.perCluster > 0
    ensures ok <==> Skip(v.g, offset) < |cs|
    ensures ok ==> cluster == cs[Skip(v.g, offset)] && rest == Rest(v.g, offset)
  {
    hide Represents, GeometryOk, Chain, Skip, Rest;
    ok, cluster, rest := false, first, 0;
    if !IsData(v.g.MaxCluster(), first) {
      return;
    }
    var skip := Skip(v.g, offset);
    var i := 0;
    ChainHead(v.table, v.g.MaxCluster(), cs);
    while i < skip
      invariant 0 <= i <= skip && i < |cs| && cluster == cs[i]
    {
      NextIsData(v.table, v.g.MaxCluster(), cs, i);
      var next := v.ReadEntry(cluster);
      if !IsData(v.g.MaxCluster(), next) || next >= EOC || next == BAD_CLUSTER {
        return;
      }
      cluster := next;
      i := i + 1;
    }
    return true, cluster, Rest(v.g, offset);
  }

  // ---- writing ----

  /** A file's sectors once it has been lengthened from cs to ds: the old ones and then zeros. */
  function GrownSectors(g: Geometry, cl: Clusters, cs: seq<u16>, ds: seq<u16>): seq<Sector>
    requires |cs| <= |ds|
  {
    Sectors(cl, cs) + Zeros(Row(|ds| - |cs|, g.perCluster))
  }

  lemma GrownFacts(g: Geometry, t: Table, cl: Clusters, cs: seq<u16>, u: Table, ml: Clusters, ds: seq<u16>)
    requires Grown(t, g.MaxCluster(), cs, u, ds) && Appended(g, cl, ml, cs, ds) && |ml| == g.MaxCluster() + 1
    ensures Sectors(ml, ds) == GrownSectors(g, cl, cs, ds) && Outside(cl, ml, ds) && |cs| <= |ds|
  {
    hide Sectors, Zeros, Chain, Row, FreeCount;
    if ds != [] {
      Acyclic(u, g.MaxCluster(), ds);
      forall i | 0 <= i < |ds|
        ensures ds[i] < |cl|
      {
        Link(u, g.MaxCluster(), ds, i);
      }
    }
    AppendedSectors(g, cl, ml, cs, ds);
  }

  /** With no wrap in the rounding, the clusters ensure_chain_capacity provides hold the whole range. */
  lemma RoomSuffices(g: Geometry, offset: nat, end: nat, n: nat)
    requires GeometryOk(g) && offset < end < WORD32 && end + ClusterSize(g) - 1 < WORD32 && n >= Required(g, end)
    ensures end <= SECTOR * Row(n, g.perCluster) && Skip(g, offset) < n
  {
    hide Row, Required, Skip, Rest, ClusterSize;
    RequiredExactly(g, end);
    SizeIs(g);
    Regroup(Required(g, end), g.perCluster);
    RowMono(Required(g, end), n, g.perCluster);
    OffsetSplit(g, offset);
    if n <= Skip(g, offset) {
      RowMono(n, Skip(g, offset), g.perCluster);
    }
  }

  /** No chain holds so many bytes that the rounding of its size could wrap. */
  lemma NoWrapInside(g: Geometry, t: Table, ds: seq<u16>, end: nat)
    requires GeometryOk(g) && Chain(t, g.MaxCluster(), ds) && end <= SECTOR * Row(|ds|, g.perCluster)
    ensures end + ClusterSize(g) - 1 < WORD32
  {
    hide Chain;
    ChainFits(t, g.MaxCluster(), ds);
    ChainBounds(t, g.MaxCluster(), ds);
    MulMono(g.perCluster, 128, |ds|);
  }

  /** Once the chain is long enough for the rounded size, it holds the range exactly when there was room. */
  lemma RoomExactly(g: Geometry, t: Table, cs: seq<u16>, u: Table, ds: seq<u16>, offset: nat, size: nat)
    requires GeometryOk(g) && TableOk(t, g.MaxCluster()) && TableOk(u, g.MaxCluster()) && Chain(u, g.MaxCluster(), ds)
    requires FreeCount(u, g.MaxCluster()) + |ds| == FreeCount(t, g.MaxCluster()) + |cs|
    requires 0 < size && offset + size < WORD32 && |ds| >= Required(g, offset + size)
    ensures HasRoom(g, t, cs, offset, size) <==> offset + size <= SECTOR * Row(|ds|, g.perCluster)
    ensures HasRoom(g, t, cs, offset, size) ==> Skip(g, offset) < |ds|
  {
    hide Row, Required, Skip, ClusterSize, FreeCount, GeometryOk, Chain;
    Positive(g);
    if offset + size + ClusterSize(g) - 1 < WORD32 {
      RoomSuffices(g, offset, offset + size, |ds|);
    } else if offset + size <= SECTOR * Row(|ds|, g.perCluster) {
      NoWrapInside(g, u, ds, offset + size);
    }
  }

  lemma SizeIs(g: Geometry)
    ensures ClusterSize(g) == g.perCluster * SECTOR
  {}

  /** The range fits 32 bits, its rounding does too, and enough clusters are free. */
  ghost predicate HasRoom(g: Geometry, t: Table, cs: seq<u16>, offset: nat, size: nat)
    requires TableOk(t, g.MaxCluster()) && g.perCluster > 0
  {
    && 0 < size && offset + size < WORD32 && offset + size + ClusterSize(g) - 1 < WORD32
    && Required(g, offset + size) <= |cs| + FreeCount(t, g.MaxCluster())
  }

  /** What a file layer write may change outside the file: its directory entry, once bytes have reached the file. */
  function WithEntry(g: Geometry, cl: Clusters, n: Node, w: nat): Clusters {
    if w > 0 then EntryInClusters(g, cl, n) else cl
  }

  function DiskWithEntry(d: Disk, n: Node, w: nat): Disk { if w > 0 then EntryOnDisk(d, n) else d }

  /** The directory sector on disk names node n's first cluster and size. */
  ghost predicate EntrySays(d: Disk, n: Node)
    requires HasEntry(n)
  {
    DirFirst(Get(d, n.lba), n.index) == n.first && DirSize(Get(d, n.lba), n.index) == n.size
  }

  /**
   * write_chain: `cs` is the file's chain before and `ds` after, `w` the bytes that reached the file. Outside the
   * file's clusters and its directory entry neither the clusters nor the root directory change.
   */
  method WriteChain(v: Volume, n: Node, offset: nat, data: seq<byte>, ghost cs: seq<u16>)
    returns (r: nat, n': Node, ghost ds: seq<u16>, ghost w: nat)
    requires v.Valid() && NodeOk(v.g, v.table, cs, n) && FileChain(v.table, v.g.MaxCluster(), n.first, cs)
    modifies v
    ensures v.Valid() && Grown(old(v.table), v.g.MaxCluster(), cs, v.table, ds) && |cs| <= |ds| && v.g.perCluster > 0
    ensures TableOk(old(v.table), v.g.MaxCluster()) && FileChain(v.table, v.g.MaxCluster(), n'.first, ds)
    ensures w <= |data| && Outside(WithEntry(v.g, old(v.clusters), n', w), v.clusters, ds)
    ensures RootKept(v.g, DiskWithEntry(old(v.disk), n', w), v.disk)
    ensures Spliced(GrownSectors(v.g, old(v.clusters), cs, ds), Sectors(v.clusters, ds), offset, data[..w])
    ensures w > 0 ==> offset + w <= SECTOR * Row(|ds|, v.g.perCluster)
    ensures r == (if HasEntry(n) then w else 0) && n'.size == Max(n.size, if w > 0 then offset + w else 0)
    ensures data != [] ==> (w == |data| <==> HasRoom(v.g, old(v.table), cs, offset, |data|))
    ensures NodeOk(v.g, v.table, ds, n') && n'.lba == n.lba && n'.index == n.index
    ensures r > 0 ==> EntrySays(v.disk, n')
    ensures w == 0 && HasEntry(n) ==> Get(v.disk, n.lba) == Get(old(v.disk), n.lba)
    ensures data != [] && offset + |data| < WORD32 && TooFull(v.g, old(v.table), cs, offset + |data|) ==>
              w == 0 && |ds| == |cs| + FreeCount(old(v.table), v.g.MaxCluster())
  {
    hide GeometryOk, Represents, Chain, Grown, Appended, FreeCount, Required, Sectors, Row, Zeros, Spliced;
    hide Outside, GrownSectors, Skip, Rest, ClusterSize, RootKept, NodeOk, HasRoom, EntryInClusters, EntryOnDisk;
    hide Get, TooFull;
    ghost var g, t, cl, d := v.g, v.table, v.clusters, v.disk;
    GoodGeometry(v.g, v.disk, t, cl);
    r, n', ds, w := 0, n, cs, 0;
    WriteNothing(g, t, cl, cs, offset, data);
    RootSame(g, d);
    if data == [] || offset > 0xFFFF_FFFF || offset + |data| > 0xFFFF_FFFF {
      RoomIs(g, t, cs, offset, |data|);
      return;
    }
    var ok, first, cluster, rest;
    ok, first, ds := EnsureCapacity(v, n.first, offset + |data|, cs);
    n' := n.(first := first);
    GoodGeometry(v.g, v.disk, v.table, v.clusters);
    GrownFacts(g, t, cl, cs, v.table, v.clusters, ds);
    GrownChain(t, g.MaxCluster(), cs, v.table, ds);
    NodeStays(g, t, cs, v.table, ds, n);
    NodeMoved(g, v.table, ds, n, n');
    SplicedNone(Sectors(v.clusters, ds), offset);
    EntryUntouched(g, d, t, cl, v.disk, v.table, v.clusters, ds, n);
    TakesAll(g, t, cs, v.table, ds, offset + |data|);
    if !ok {
      OutOfRoom(g, t, cs, v.table, ds, offset, |data|);
      return;
    }
    RoomExactly(g, t, cs, v.table, ds, offset, |data|);
    ok, cluster, rest := ClusterForOffset(v, first, offset, ds);
    if !ok {
      return;
    }
    OffsetSplit(v.g, offset);
    ghost var ml, e := v.clusters, v.disk;
    var written := WriteFrom(v, cluster, rest, offset, data, ds, Skip(v.g, offset));
    w := written;
    OutsideChain(cl, ml, v.clusters, ds);
    RootTrans(g, d, e, v.disk);
    EntryUntouched(g, d, t, cl, v.disk, v.table, v.clusters, ds, n);
    if written > 0 {
      if offset + written > n.size {
        n' := n'.(size := offset + written);
      }
      NodeMoved(g, v.table, ds, n, n');
      ml, e := v.clusters, v.disk;
      ok := UpdateEntry(v, n');
      EntryApart(g, v.table, cl, ml, ds, n');
      EntryRoot(g, d, e, n');
      if !ok {
        return;
      }
    }
    r := written;
  }

  /** The volume has too few free clusters to hold a file of that size. */
  ghost predicate TooFull(g: Geometry, t: Table, cs: seq<u16>, end: nat)
    requires TableOk(t, g.MaxCluster()) && g.perCluster > 0
  {
    Required(g, end) > |cs| + FreeCount(t, g.MaxCluster())
  }

  /** On such a volume ensure_chain_capacity fails, with every free cluster appended to the chain. */
  lemma TakesAll(g: Geometry, t: Table, cs: seq<u16>, u: Table, ds: seq<u16>, end: nat)
    requires TableOk(t, g.MaxCluster()) && TableOk(u, g.MaxCluster()) && g.perCluster > 0
    requires FreeCount(u, g.MaxCluster()) + |ds| == FreeCount(t, g.MaxCluster()) + |cs|
    ensures TooFull(g, t, cs, end) ==> |ds| < Required(g, end)
    ensures FreeCount(u, g.MaxCluster()) == 0 ==> |ds| == |cs| + FreeCount(t, g.MaxCluster())
  {
    hide FreeCount, Required;
  }

  /** While only the file's own clusters change, its directory entry on disk says what it said. */
  lemma EntryUntouched(g: Geometry, d: Disk, t: Table, cl: Clusters, e: Disk, u: Table, ml: Clusters, ds: seq<u16>,
          n: Node)
    requires GeometryOk(g) && Represents(g, d, t, cl) && Represents(g, e, u, ml)
    requires NodeOk(g, u, ds, n) && Outside(cl, ml, ds) && RootKept(g, d, e)
    ensures HasEntry(n) ==> Get(e, n.lba) == Get(d, n.lba)
  {
    if InCluster(g, n) {
      hide Represents, Get, ClusterOf, SectorOf;
      var c, s := ClusterOf(g, n.lba), SectorOf(g, n.lba);
      Located(g, n.lba);
      DataRead(g, d, t, cl, c, s);
      DataRead(g, e, u, ml, c, s);
    }
  }

  /**
   * A write to an empty file that the volume is too full for takes every free cluster, and the entry on disk names none
   * of them: the chain is lost unless a later write of the same open file succeeds.
   */
  lemma ClustersUnnamed(g: Geometry, t: Table, d: Disk, e: Disk, u: Table, ds: seq<u16>, n: Node, n': Node)
    requires HasEntry(n) && EntrySays(d, n) && Get(e, n.lba) == Get(d, n.lba)
    requires FileChain(t, g.MaxCluster(), n.first, []) && FileChain(u, g.MaxCluster(), n'.first, ds) && ds != []
    ensures DirFirst(Get(e, n.lba), n.index) == n.first != ds[0]
  {}

  /** NodeOk is about the place of the entry, not about what it says. */
  lemma NodeMoved(g: Geometry, t: Table, cs: seq<u16>, n: Node, n': Node)
    requires NodeOk(g, t, cs, n) && n'.lba == n.lba && n'.index == n.index
    ensures NodeOk(g, t, cs, n') && Placed(g, n')
  {}

  /** The entry lies outside the file, so the file reads the same and the rest differs by the entry only. */
  lemma EntryApart(g: Geometry, t: Table, cl: Clusters, ml: Clusters, ds: seq<u16>, n: Node)
    requires NodeOk(g, t, ds, n) && Outside(cl, ml, ds)
    ensures Sectors(EntryInClusters(g, ml, n), ds) == Sectors(ml, ds)
    ensures Outside(EntryInClusters(g, cl, n), EntryInClusters(g, ml, n), ds)
  {
    hide Sectors, PutEntry, ClusterOf, SectorOf;
    ElsewhereKept(g, ml, n, ds);
  }

  lemma EntryRoot(g: Geometry, d: Disk, e: Disk, n: Node)
    requires RootKept(g, d, e)
    ensures RootKept(g, EntryOnDisk(d, n), EntryOnDisk(e, n))
  {
    hide PutEntry, Get;
    var s, r := PutEntry(Get(d, n.lba), if n.index < 16 then n.index else 0, n.first, n.size),
                PutEntry(Get(e, n.lba), if n.index < 16 then n.index else 0, n.first, n.size);
    forall x: nat | g.RootStart() <= x < g.DataStart()
      ensures Get(EntryOnDisk(e, n), x) == Get(EntryOnDisk(d, n), x)
    {
      GetOther(d, n.lba, s, x);
      GetOther(e, n.lba, r, x);
    }
  }

  lemma GoodGeometry(g: Geometry, d: Disk, t: Table, cl: Clusters)
    requires GeometryOk(g) && Represents(g, d, t, cl)
    ensures g.perCluster > 0 && TableOk(t, g.MaxCluster()) && |cl| == g.MaxCluster() + 1
  {
    TableFits(g, d, t, cl);
  }

  lemma WriteNothing(g: Geometry, t: Table, cl: Clusters, cs: seq<u16>, offset: nat, data: seq<byte>)
    requires TableOk(t, g.MaxCluster()) && (cs != [] ==> Chain(t, g.MaxCluster(), cs))
    ensures Grown(t, g.MaxCluster(), cs, t, cs) && Outside(cl, cl, cs) && data[..0] == []
    ensures Spliced(GrownSectors(g, cl, cs, cs), Sectors(cl, cs), offset, [])
  {
    hide Sectors, Spliced, FreeCount, Chain;
    assert GrownSectors(g, cl, cs, cs) == Sectors(cl, cs);
    SplicedNone(Sectors(cl, cs), offset);
  }

  lemma RoomIs(g: Geometry, t: Table, cs: seq<u16>, offset: nat, size: nat)
    requires TableOk(t, g.MaxCluster()) && g.perCluster > 0 && (size == 0 || offset + size >= WORD32)
    ensures !HasRoom(g, t, cs, offset, size)
  {}

  lemma OutOfRoom(g: Geometry, t: Table, cs: seq<u16>, u: Table, ds: seq<u16>, offset: nat, size: nat)
    requires GeometryOk(g) && TableOk(t, g.MaxCluster()) && TableOk(u, g.MaxCluster()) && 0 < size
    requires offset + size < WORD32
    requires FreeCount(u, g.MaxCluster()) + |ds| == FreeCount(t, g.MaxCluster()) + |cs|
    requires FreeCount(u, g.MaxCluster()) == 0
    requires |ds| < Required(g, offset + size) || ds == []
    ensures !HasRoom(g, t, cs, offset, size)
  {
    hide FreeCount, Required;
    RequiredExactly(g, offset + size);
  }

  // ---- reading ----

  /** read_chain's inner loop over the sectors of one cluster, from byte `start` of it on. */
  method ReadCluster(v: Volume, cluster: u16, start: nat, offset: nat, size: nat, have: seq<byte>,
          ghost cs: seq<u16>, ghost k: nat)
    returns (out: seq<byte>)
    requires v.Valid() && Chain(v.table, v.g.MaxCluster(), cs) && k < |cs| && cs[k] == cluster
    requires |have| < size && start < SECTOR * v.g.perCluster
    requires offset + |have| == SECTOR * Row(k, v.g.perCluster) + start
    requires Reads(Sectors(v.clusters, cs), offset, have)
    ensures |have| <= |out| <= size && Reads(Sectors(v.clusters, cs), offset, out)
    ensures |out| == Min(size, |have| + SECTOR * v.g.perCluster - start)
  {
    hide GeometryOk, Represents, Chain, Sectors, Row, Reads, Rows;
    out := have;
    var s := 0;
    ghost var ss := Sectors(v.clusters, cs);
    Link(v.table, v.g.MaxCluster(), cs, k);
    RowsHold(v.g, v.disk, v.table, v.clusters, cs);
    while s < v.g.perCluster && |out| < size
      invariant 0 <= s <= v.g.perCluster && |have| <= |out| <= size && Reads(ss, offset, out)
      invariant |out| <= |have| + SECTOR * v.g.perCluster - start
      invariant |out| < size ==> offset + |out| == SECTOR * Row(k, v.g.perCluster) + Max(SECTOR * s, start)
      decreases v.g.perCluster - s
    {
      if SECTOR * s + SECTOR > start {
        var sector := v.ReadData(cluster, s);
        var at := if start > SECTOR * s then start - SECTOR * s else 0;
        var n := Min(SECTOR - at, size - |out|);
        SectorAt(v.clusters, cs, v.g.perCluster, k, s);
        ReadsStep(ss, offset, out, Row(k, v.g.perCluster) + s, at, n);
        out := out + sector[at..at + n];
      }
      s := s + 1;
    }
  }

  /** `out` is what the file holds from `offset` on. */
  ghost predicate Reads(ss: seq<Sector>, offset: nat, out: seq<byte>) {
    out != [] ==> offset + |out| <= SECTOR * |ss| && out == Bytes(ss, offset, |out|)
  }

  lemma ReadsStep(ss: seq<Sector>, offset: nat, out: seq<byte>, q: nat, at: nat, n: nat)
    requires Reads(ss, offset, out) && q < |ss| && at + n <= SECTOR && offset + |out| == SECTOR * q + at
    ensures Reads(ss, offset, out + ss[q][at..at + n])
  {
    BytesStep(ss, offset, |out|, n, q, at);
  }

  /** read_chain's outer loop. */
  method ReadFrom(v: Volume, first: u16, start: nat, offset: nat, size: nat, ghost cs: seq<u16>, ghost k0: nat)
    returns (out: seq<byte>)
    requires v.Valid() && Chain(v.table, v.g.MaxCluster(), cs) && k0 < |cs| && cs[k0] == first && size > 0
    requires start < SECTOR * v.g.perCluster && offset == SECTOR * Row(k0, v.g.perCluster) + start
    ensures Reads(Sectors(v.clusters, cs), offset, out)
    ensures |out| == Min(size, SECTOR * Row(|cs|, v.g.perCluster) - offset)
  {
    hide GeometryOk, Represents, Chain, Sectors, Row, Reads, IsData;
    var cluster, from: nat := first, start;
    ghost var k := k0;
    out := [];
    ReadsNothing(Sectors(v.clusters, cs), offset);
    EndOrData(v.table, v.g.MaxCluster(), cs, k0);
    RowStep(k0, v.g.perCluster);
    RowMono(k0 + 1, |cs|, v.g.perCluster);
    while |out| < size && cluster < EOC && cluster != BAD_CLUSTER
      invariant |out| <= size && Reads(Sectors(v.clusters, cs), offset, out) && k <= |cs|
      invariant k < |cs| ==> cluster == cs[k] && cluster < BAD_CLUSTER
      invariant k == |cs| ==> cluster >= EOC && |out| == SECTOR * Row(|cs|, v.g.perCluster) - offset
      invariant |out| < size && k < |cs| ==>
              from < SECTOR * v.g.perCluster && offset + |out| == SECTOR * Row(k, v.g.perCluster) + from
      invariant |out| <= SECTOR * Row(|cs|, v.g.perCluster) - offset
      decreases |cs| - k, size - |out|
    {
      RowStep(k, v.g.perCluster);
      RowMono(k + 1, |cs|, v.g.perCluster);
      out := ReadCluster(v, cluster, from, offset, size, out, cs, k);
      from := 0;
      if |out| < size {
        NextIsData(v.table, v.g.MaxCluster(), cs, k);
        EndOrData(v.table, v.g.MaxCluster(), cs, k);
        cluster := v.ReadEntry(cluster);
        k := k + 1;
      }
    }
  }

  lemma ReadsNothing(ss: seq<Sector>, offset: nat)
    ensures Reads(ss, offset, [])
  {}

  lemma EndOrData(t: Table, max: nat, cs: seq<u16>, k: nat)
    requires Chain(t, max, cs) && k < |cs|
    ensures cs[k] < |t| && cs[k] < BAD_CLUSTER && (k == |cs| - 1 ==> t[cs[k]] >= EOC)
    ensures (k < |cs| - 1 ==> t[cs[k]] < BAD_CLUSTER)
  {
    Link(t, max, cs, k);
  }

  /** read_chain of a file whose chain is cs. */
  method ReadChain(v: Volume, first: u16, fileSize: nat, offset: nat, size: nat, ghost cs: seq<u16>)
    returns (out: seq<byte>)
    requires v.Valid() && (first < 2 || (Chain(v.table, v.g.MaxCluster(), cs) && cs[0] == first)) && v.g.perCluster > 0
    ensures Reads(Sectors(v.clusters, cs), offset, out)
    ensures |out| == if first < 2 || offset >= fileSize || Skip(v.g, offset) >= |cs| then 0
                     else Min(Min(size, fileSize - offset), SECTOR * Row(|cs|, v.g.perCluster) - offset)
  {
    hide GeometryOk, Represents, Chain, Sectors, Row, Reads, IsData, Skip, Rest;
    ReadsNothing(Sectors(v.clusters, cs), offset);
    out := [];
    if first < 2 || offset >= fileSize {
      return;
    }
    var want := if size > fileSize - offset then fileSize - offset else size;
    var skip, rest, cluster, i := Skip(v.g, offset), Rest(v.g, offset), first, 0;
    ChainHead(v.table, v.g.MaxCluster(), cs);
    while i < skip
      invariant 0 <= i <= skip && i < |cs| && cluster == cs[i]
    {
      NextIsData(v.table, v.g.MaxCluster(), cs, i);
      EndOrData(v.table, v.g.MaxCluster(), cs, i);
      cluster := v.ReadEntry(cluster);
      if cluster >= EOC || cluster == BAD_CLUSTER {
        return;
      }
      i := i + 1;
    }
    OffsetSplit(v.g, offset);
    RowMono(skip + 1, |cs|, v.g.perCluster);
    RowStep(skip, v.g.perCluster);
    if want > 0 {
      out := ReadFrom(v, cluster, rest, offset, want, cs, skip);
    }
  }

  // ---- the promises of the file layer ----

  lemma Within(g: Geometry, offset: nat, n: nat)
    requires g.perCluster > 0 && offset < SECTOR * Row(n, g.perCluster)
    ensures Skip(g, offset) < n
  {
    hide Row, Skip, Rest;
    OffsetSplit(g, offset);
    if n <= Skip(g, offset) {
      RowMono(n, Skip(g, offset), g.perCluster);
    }
  }

  lemma FileLength(g: Geometry, d: Disk, t: Table, cl: Clusters, cs: seq<u16>)
    requires Represents(g, d, t, cl) && Chain(t, g.MaxCluster(), cs)
    ensures |Sectors(cl, cs)| == Row(|cs|, g.perCluster)
  {
    hide Represents, Chain, Sectors, Row;
    RowsHold(g, d, t, cl, cs);
    SectorAt(cl, cs, g.perCluster, 0, 0);
  }

  lemma WrittenIsRead(g: Geometry, d: Disk, t: Table, cl: Clusters, cs: seq<u16>, rs: seq<Sector>, offset: nat,
          data: seq<byte>, out: seq<byte>)
    requires Represents(g, d, t, cl) && Chain(t, g.MaxCluster(), cs) && Spliced(rs, Sectors(cl, cs), offset, data)
    requires offset + |data| <= SECTOR * Row(|cs|, g.perCluster) && Reads(Sectors(cl, cs), offset, out)
    requires |out| == |data| > 0
    ensures out == data
  {
    hide Represents, Chain, Sectors, Row, Spliced;
    FileLength(g, d, t, cl, cs);
    ReadBack(rs, Sectors(cl, cs), offset, data);
  }

  /** A write that returns its full size, read back from the directory entry on disk, gives the same bytes. */
  method WriteThenRead(v: Volume, n: Node, offset: nat, data: seq<byte>, ghost cs: seq<u16>)
    returns (r: nat, out: seq<byte>)
    requires v.Valid() && NodeOk(v.g, v.table, cs, n) && FileChain(v.table, v.g.MaxCluster(), n.first, cs)
    requires data != []
    modifies v
    ensures v.Valid() && (r == |data| ==> out == data)
  {
    hide GeometryOk, Represents, Chain, Grown, Sectors, Row, Spliced, Outside, GrownSectors, Skip, Reads;
    hide FreeCount, Required, NodeOk, HasRoom, DirFirst, DirSize, WithEntry, DiskWithEntry, RootKept;
    ghost var cl := v.clusters;
    var n';
    ghost var ds, w;
    r, n', ds, w := WriteChain(v, n, offset, data, cs);
    out := [];
    if r == |data| {
      assert data[..w] == data;
      HasChain(v.table, v.g.MaxCluster(), n'.first, ds, offset, w, v.g.perCluster);
      Within(v.g, offset, |ds|);
      var entry := Get(v.disk, n.lba);
      out := ReadChain(v, DirFirst(entry, n.index), DirSize(entry, n.index), offset, |data|, ds);
      WrittenIsRead(v.g, v.disk, v.table, v.clusters, ds, GrownSectors(v.g, cl, cs, ds), offset, data, out);
    }
  }

  lemma HasChain(t: Table, max: nat, first: u16, ds: seq<u16>, offset: nat, w: nat, per: nat)
    requires FileChain(t, max, first, ds) && w > 0 && offset + w <= SECTOR * Row(|ds|, per)
    ensures first >= 2 && Chain(t, max, ds) && ds[0] == first
  {}

  /**
   * What a write leaves of any other file: its chain, and every byte if it is not the directory holding the entry;
   * that directory changes in the one sector of the entry, where the other fifteen entries name what they named.
   */
  lemma WriteKeepsOthers(g: Geometry, d: Disk, t: Table, cl: Clusters, cs: seq<u16>, u: Table, ml: Clusters,
          ds: seq<u16>, n: Node, w: nat, es: seq<u16>)
    requires GeometryOk(g) && Represents(g, d, t, cl) && Chain(t, g.MaxCluster(), es) && Disjoint(es, cs)
    requires Grown(t, g.MaxCluster(), cs, u, ds) && Outside(WithEntry(g, cl, n, w), ml, ds)
    ensures Chain(u, g.MaxCluster(), es) && Disjoint(es, ds)
    ensures w == 0 || !InCluster(g, n) || ClusterOf(g, n.lba) !in es ==> Sectors(ml, es) == Sectors(cl, es)
    ensures forall k :: w > 0 && InCluster(g, n) && 0 <= k < |es| && es[k] == ClusterOf(g, n.lba) ==>
                          EntryAt(g, n, k) < |Sectors(cl, es)| &&
                          Sectors(ml, es) == DirectoryAfter(Sectors(cl, es), n, EntryAt(g, n, k))
    ensures EntriesKept(Sectors(cl, es), Sectors(ml, es), n.index)
  {
    hide EntriesKept;
    hide Chain, Sectors, Grown, Outside, EntryInClusters, DirectoryAfter, EntryAt, ClusterOf, Represents, GeometryOk;
    OthersKept(t, WithEntry(g, cl, n, w), g.MaxCluster(), cs, u, ml, ds, es);
    if w > 0 {
      if !InCluster(g, n) || ClusterOf(g, n.lba) !in es {
        ElsewhereKept(g, cl, n, es);
      }
      forall k | InCluster(g, n) && 0 <= k < |es| && es[k] == ClusterOf(g, n.lba)
        ensures EntryAt(g, n, k) < |Sectors(cl, es)|
        ensures Sectors(ml, es) == DirectoryAfter(Sectors(cl, es), n, EntryAt(g, n, k))
      {
        DirectoryKept(g, d, t, cl, n, es, k);
      }
    }
    if w > 0 && InCluster(g, n) && ClusterOf(g, n.lba) in es {
      var k :| 0 <= k < |es| && es[k] == ClusterOf(g, n.lba);
      DirectoryEntries(Sectors(cl, es), n, EntryAt(g, n, k));
    } else {
      SameEntries(Sectors(cl, es), n.index);
    }
  }

  /** Sector by sector, every entry with an index other than i names the same first cluster and size. */
  ghost predicate EntriesKept(ss: seq<Sector>, rs: seq<Sector>, i: nat) {
    |rs| == |ss| && forall q: nat, j: nat :: q < |ss| && j < 16 && j != i ==> SameEntry(ss[q], rs[q], j)
  }

  lemma SameEntries(ss: seq<Sector>, i: nat)
    ensures EntriesKept(ss, ss, i)
  {}

  lemma DirectoryEntries(ss: seq<Sector>, n: Node, at: nat)
    requires at < |ss| && n.index < 16
    ensures EntriesKept(ss, DirectoryAfter(ss, n, at), n.index)
  {
    hide PutEntry, DirFirst, DirSize;
    forall j: nat | j < 16 && j != n.index
      ensures SameEntry(ss[at], DirectoryAfter(ss, n, at)[at], j)
    {
      NeighboursKept(ss[at], n.index, n.first, n.size, j);
    }
  }

  /** And so do the root directory's entries, all but the one written. */
  lemma RootEntriesKept(g: Geometry, d: Disk, e: Disk, n: Node, w: nat, lba: nat, j: nat)
    requires RootKept(g, DiskWithEntry(d, n, w), e) && g.RootStart() <= lba < g.DataStart() && j < 16
    requires (lba, j) != (n.lba, n.index)
    ensures SameEntry(Get(d, lba), Get(e, lba), j)
  {
    hide PutEntry, Get;
    if w > 0 && HasEntry(n) {
      var s := PutEntry(Get(d, n.lba), n.index, n.first, n.size);
      GetOther(d, n.lba, s, lba);
      if lba == n.lba {
        NeighboursKept(Get(d, lba), n.index, n.first, n.size, j);
      }
    }
  }

  /** A file that shares no cluster with what changed keeps its chain and every byte. */
  lemma OthersKept(t: Table, cl: Clusters, max: nat, cs: seq<u16>, u: Table, ml: Clusters, ds: seq<u16>, es: seq<u16>)
    requires Grown(t, max, cs, u, ds) && Outside(cl, ml, ds) && Chain(t, max, es) && Disjoint(es, cs)
    ensures Chain(u, max, es) && Disjoint(es, ds) && Sectors(ml, es) == Sectors(cl, es)
  {
    hide Chain, Sectors, FreeCount;
    NoneTaken(t, max, cs, u, ds, es);
    ChainBounds(t, max, es);
    ChainSame(t, u, max, es);
    SectorsSame(cl, ml, es);
  }

  lemma NoneTaken(t: Table, max: nat, cs: seq<u16>, u: Table, ds: seq<u16>, es: seq<u16>)
    requires Grown(t, max, cs, u, ds) && Chain(t, max, es) && Disjoint(es, cs)
    ensures Disjoint(es, ds) && |u| == |t| && forall c :: c in es ==> c < |t| && u[c] == t[c]
  {
    hide Chain, FreeCount;
    ChainBounds(t, max, es);
    forall c | c in es
      ensures c !in ds && c < |t|
    {
      if c in ds {
        var i :| 0 <= i < |ds| && ds[i] == c;
        if i >= |cs| {
          FreeNotInChain(t, max, es, c);
        }
      }
    }
  }

  /** A resize leaves the chain of every other file as it was. */
  lemma ResizeOthers(t: Table, max: nat, cs: seq<u16>, u: Table, ds: seq<u16>, es: seq<u16>)
    requires Resized(t, max, cs, u, ds) && Chain(t, max, es) && Disjoint(es, cs)
    ensures Chain(u, max, es) && Disjoint(es, ds)
  {
    hide Chain, FreeCount;
    ChainBounds(t, max, es);
    var k := Min(|cs|, |ds|);
    forall c | c in es
      ensures c !in ds && u[c] == t[c]
    {
      if c in ds {
        var i :| 0 <= i < |ds| && ds[i] == c;
        if i >= k {
          FreeNotInChain(t, max, es, c);
        }
      }
    }
    ChainSame(t, u, max, es);
  }
}
