// Directory entries: where a file's 32 bytes lie and what updating them changes (src/drivers/fat16.c).
module FatEntry {
  import opened Basics
  import opened SeqArith
  import opened FatChain
  import opened FatVolume
  import opened Fat16
  import opened FatContent

  /** A file's node: its first cluster, its size, and where its 32-byte directory entry lies. */
  datatype Node = Node(first: u16, size: u32, lba: nat, index: nat)

  predicate HasEntry(n: Node) { n.lba != 0 && n.index < 16 }

  /** The data cluster a sector lies in, and which of the cluster's sectors it is. */
  function ClusterOf(g: Geometry, lba: nat): nat {
    if g.perCluster == 0 || lba < g.DataStart() then 0
    else
      DivMod(lba - g.DataStart(), g.perCluster);
      2 + (lba - g.DataStart()) / g.perCluster
  }

  function SectorOf(g: Geometry, lba: nat): nat {
    if g.perCluster == 0 || lba < g.DataStart() then 0 else (lba - g.DataStart()) % g.perCluster
  }

  lemma Located(g: Geometry, lba: nat)
    requires g.perCluster > 0 && lba >= g.DataStart()
    ensures ClusterOf(g, lba) >= 2 && SectorOf(g, lba) < g.perCluster
    ensures lba == g.ClusterLba(ClusterOf(g, lba)) + SectorOf(g, lba)
  {
    DivMod(lba - g.DataStart(), g.perCluster);
  }

  /** The entry is kept in a cluster of a subdirectory rather than in the root directory. */
  predicate InCluster(g: Geometry, n: Node) { HasEntry(n) && n.lba >= g.DataStart() }

  /** The entry, if there is one, lies in the root directory or in a data cluster. */
  predicate Placed(g: Geometry, n: Node) {
    && (HasEntry(n) ==> n.lba >= g.RootStart())
    && (InCluster(g, n) ==> 2 <= ClusterOf(g, n.lba) <= g.MaxCluster())
  }

  /** A directory's cluster is in use and is none of the file's own. */
  ghost predicate NodeOk(g: Geometry, t: Table, cs: seq<u16>, n: Node) {
    Placed(g, n) && (InCluster(g, n) ==> var c := ClusterOf(g, n.lba); c < |t| && t[c] != FREE_CLUSTER && c !in cs)
  }

  /** The clusters appended to a file were free, so its directory's cluster is still none of them. */
  lemma NodeStays(g: Geometry, t: Table, cs: seq<u16>, u: Table, ds: seq<u16>, n: Node)
    requires Grown(t, g.MaxCluster(), cs, u, ds) && NodeOk(g, t, cs, n)
    ensures NodeOk(g, u, ds, n)
  {
    hide Chain, FreeCount, ClusterOf;
  }

  // ---- the bytes of an entry ----

  function DirFirst(s: Sector, i: nat): u16
    requires i < 16
  {
    U16At(s, 32 * i + 26)
  }

  function DirSize(s: Sector, i: nat): nat
    requires i < 16
  {
    U16At(s, 32 * i + 28) + 0x1_0000 * U16At(s, 32 * i + 30)
  }

  function WithArchive(b: byte): byte { if b / 32 % 2 == 1 then b else b + 32 }

  /** The directory sector after update_entry_unlocked: first cluster, size and the archive attribute. */
  function PutEntry(s: Sector, i: nat, first: u16, size: u32): Sector
    requires i < 16
  {
    var a := PutU16(s, 32 * i + 26, first);
    var b := PutU16(PutU16(a, 32 * i + 28, size % 0x1_0000), 32 * i + 30, size / 0x1_0000);
    b[32 * i + 11 := WithArchive(b[32 * i + 11])]
  }

  /** The entry reads back what was stored; every byte but the attributes, first cluster and size is untouched. */
  lemma EntryRoundTrip(s: Sector, i: nat, first: u16, size: u32)
    requires i < 16
    ensures DirFirst(PutEntry(s, i, first, size), i) == first && DirSize(PutEntry(s, i, first, size), i) == size
    ensures forall b :: 0 <= b < SECTOR && b != 32 * i + 11 && !(32 * i + 26 <= b < 32 * i + 32) ==>
                          PutEntry(s, i, first, size)[b] == s[b]
    ensures var was, now := s[32 * i + 11], PutEntry(s, i, first, size)[32 * i + 11];
            now / 32 % 2 == 1 && now % 32 == was % 32 && now / 64 == was / 64
  {}

  /** Entry j of the sector has the same 32 bytes, so also the same first cluster and size. */
  ghost predicate SameEntry(s: Sector, r: Sector, j: nat)
    requires j < 16
  {
    && r[32 * j..32 * j + 32] == s[32 * j..32 * j + 32]
    && DirFirst(r, j) == DirFirst(s, j) && DirSize(r, j) == DirSize(s, j)
  }

  /** So the neighbouring entries name the same files as before. */
  lemma NeighboursKept(s: Sector, i: nat, first: u16, size: u32, j: nat)
    requires i < 16 && j < 16 && j != i
    ensures SameEntry(s, PutEntry(s, i, first, size), j)
  {
    EntryRoundTrip(s, i, first, size);
    hide PutEntry;
  }

  // ---- the entry on the volume ----

  /** The disk and the clusters once node n's entry is written. */
  function EntryOnDisk(d: Disk, n: Node): Disk {
    if HasEntry(n) then d[n.lba := PutEntry(Get(d, n.lba), n.index, n.first, n.size)] else d
  }

  function EntryInClusters(g: Geometry, cl: Clusters, n: Node): Clusters {
    var c, s := ClusterOf(g, n.lba), SectorOf(g, n.lba);
    if InCluster(g, n) && c < |cl| && s < |cl[c]| then
      SetSector(cl, c, s, PutEntry(cl[c][s], n.index, n.first, n.size))
    else cl
  }

  lemma EntryWritten(g: Geometry, d: Disk, t: Table, cl: Clusters, n: Node)
    requires GeometryOk(g) && Represents(g, d, t, cl) && Placed(g, n)
    ensures Represents(g, EntryOnDisk(d, n), t, EntryInClusters(g, cl, n))
  {
    hide FatsHold, DataHolds, SetSector, PutEntry, Get, ClusterOf, SectorOf;
    if HasEntry(n) {
      var s := PutEntry(Get(d, n.lba), n.index, n.first, n.size);
      if InCluster(g, n) {
        Located(g, n.lba);
        DataRead(g, d, t, cl, ClusterOf(g, n.lba), SectorOf(g, n.lba));
        DataWritten(g, d, t, cl, ClusterOf(g, n.lba), SectorOf(g, n.lba), s);
      } else {
        FatsBelow(g, d, t, n.lba, s);
        DataAbove(g, d, cl, n.lba, s);
      }
    }
  }

  /** update_entry_unlocked. */
  method UpdateEntry(v: Volume, n: Node) returns (ok: bool)
    requires v.Valid() && Placed(v.g, n)
    modifies v
    ensures v.Valid() && v.table == old(v.table) && ok == HasEntry(n)
    ensures v.disk == EntryOnDisk(old(v.disk), n) && v.clusters == EntryInClusters(v.g, old(v.clusters), n)
    ensures ok ==> DirFirst(Get(v.disk, n.lba), n.index) == n.first && DirSize(Get(v.disk, n.lba), n.index) == n.size
  {
    hide GeometryOk, Represents, PutEntry, DirFirst, DirSize, EntryInClusters;
    EntryWritten(v.g, v.disk, v.table, v.clusters, n);
    v.clusters := EntryInClusters(v.g, v.clusters, n);
    if n.lba == 0 || n.index >= 16 {
      return false;
    }
    EntryRoundTrip(Get(v.disk, n.lba), n.index, n.first, n.size);
    v.disk := v.disk[n.lba := PutEntry(Get(v.disk, n.lba), n.index, n.first, n.size)];
    ok := true;
  }

  /** A file without the directory's cluster is untouched by the update. */
  lemma ElsewhereKept(g: Geometry, cl: Clusters, n: Node, es: seq<u16>)
    requires !InCluster(g, n) || ClusterOf(g, n.lba) !in es
    ensures Sectors(EntryInClusters(g, cl, n), es) == Sectors(cl, es)
  {
    hide Sectors, PutEntry, ClusterOf, SectorOf;
    SectorsSame(cl, EntryInClusters(g, cl, n), es);
  }

  /** The directory that holds the entry changes in the entry's sector only. */
  lemma DirectoryKept(g: Geometry, d: Disk, t: Table, cl: Clusters, n: Node, es: seq<u16>, k: nat)
    requires GeometryOk(g) && Represents(g, d, t, cl) && Chain(t, g.MaxCluster(), es)
    requires InCluster(g, n) && k < |es| && es[k] == ClusterOf(g, n.lba)
    ensures EntryAt(g, n, k) < |Sectors(cl, es)|
    ensures Sectors(EntryInClusters(g, cl, n), es) == DirectoryAfter(Sectors(cl, es), n, EntryAt(g, n, k))
  {
    hide Sectors, PutEntry, ClusterOf, SectorOf, Represents, GeometryOk, Chain, Row, SetSector;
    Positive(g);
    Located(g, n.lba);
    RowsHold(g, d, t, cl, es);
    SectorAt(cl, es, g.perCluster, k, SectorOf(g, n.lba));
    SectorSet(cl, es, g.perCluster, k, SectorOf(g, n.lba),
              PutEntry(cl[es[k]][SectorOf(g, n.lba)], n.index, n.first, n.size));
  }

  lemma Positive(g: Geometry)
    requires GeometryOk(g)
    ensures g.perCluster > 0
  {}

  /** Which sector of the directory holds the entry, when its cluster is the directory's k-th. */
  function EntryAt(g: Geometry, n: Node, k: nat): nat { Row(k, g.perCluster) + SectorOf(g, n.lba) }

  function DirectoryAfter(ss: seq<Sector>, n: Node, q: nat): seq<Sector>
    requires q < |ss| && n.index < 16
  {
    ss[q := PutEntry(ss[q], n.index, n.first, n.size)]
  }

  lemma RowsHold(g: Geometry, d: Disk, t: Table, cl: Clusters, cs: seq<u16>)
    requires Represents(g, d, t, cl) && Chain(t, g.MaxCluster(), cs)
    ensures Rows(cl, cs, g.perCluster) && Distinct(cs)
  {
    hide Represents, Chain;
    Acyclic(t, g.MaxCluster(), cs);
    forall i | 0 <= i < |cs|
      ensures cs[i] < |cl| && |cl[cs[i]]| == g.perCluster
    {
      Link(t, g.MaxCluster(), cs, i);
      ClusterShape(g, d, t, cl, cs[i]);
    }
  }
}
