// A FAT16 volume on a disk of 512-byte sectors: where entries and clusters live (src/drivers/fat16.c).
module FatVolume {
  import opened Basics
  import opened SeqArith
  import opened FatChain

  const SECTOR: nat := 512

  type Sector = s: seq<byte> | |s| == SECTOR witness seq(SECTOR, _ => 0)

  type Disk = map<nat, Sector>

  function ZeroSector(): Sector { seq(SECTOR, _ => 0) }

  function Get(d: Disk, lba: nat): Sector { if lba in d then d[lba] else ZeroSector() }

  // ---- little-endian fields ----

  function U16At(s: Sector, at: nat): u16
    requires at + 1 < SECTOR
  {
    s[at] as int + 256 * (s[at + 1] as int)
  }

  function PutU16(s: Sector, at: nat, v: u16): Sector
    requires at + 1 < SECTOR
  {
    s[at := v % 256][at + 1 := v / 256]
  }

  lemma PutU16At(s: Sector, at: nat, v: u16, x: nat)
    requires at + 1 < SECTOR && x + 1 < SECTOR
    ensures U16At(PutU16(s, at, v), at) == v
    ensures x + 1 < at || at + 1 < x ==> U16At(PutU16(s, at, v), x) == U16At(s, x)
  {}

  /** Byte 2c of the table is byte 2 * (c % 256) of its sector c / 256. */
  lemma EntryPlace(c: nat)
    ensures c * 2 / SECTOR == c / 256 && c * 2 % SECTOR == c % 256 * 2 && c % 256 * 2 + 1 < SECTOR
  {
    var q, r := c / 256, c % 256;
    assert c == 256 * q + r && c * 2 == 512 * q + 2 * r;
  }

  // ---- geometry ----

  /** What the boot sector says; sector numbers count from the partition's first sector. */
  datatype Geometry = Geometry(partition: nat, reserved: nat, fatCount: nat, fatSectors: nat, rootSectors: nat,
          perCluster: nat, total: nat) {
    function FatStart(): nat { partition + reserved }

    function RootStart(): nat { FatStart() + fatCount * fatSectors }

    function DataStart(): nat { RootStart() + rootSectors }

    function Entries(): nat { fatSectors * 256 }

    /** max_data_cluster. */
    function MaxCluster(): nat {
      var dataLba := reserved + fatCount * fatSectors + rootSectors;
      if total <= dataLba || perCluster == 0 then 1
      else
        var clusters := (total - dataLba) / perCluster;
        if clusters == 0 || Entries() <= 2 then 1
        else
          var m := if clusters + 1 >= Entries() then Entries() - 1 else clusters + 1;
          if m >= BAD_CLUSTER then BAD_CLUSTER - 1 else m
    }

    /** Sector of FAT copy k that holds cluster c's entry. */
    function FatLba(k: nat, c: nat): nat { FatStart() + k * fatSectors + c / 256 }

    /** cluster_to_lba. */
    function ClusterLba(c: nat): nat
      requires c >= 2
    {
      DataStart() + (c - 2) * perCluster
    }
  }

  /** A boot sector validate_bpb accepts, on a partition whose sector numbers fit 32 bits. */
  ghost predicate GeometryOk(g: Geometry) {
    && g.reserved > 0 && 0 < g.fatCount < 256 && 0 < g.fatSectors < 0x1_0000 && g.rootSectors > 0
    && 0 < g.perCluster <= 128 && g.DataStart() < 0x1_0000_0000 && g.partition + g.total < 0x1_0000_0000
  }

  /** max_data_cluster never names an entry outside the table or a reserved number. */
  lemma MaxClusterOk(g: Geometry, t: Table)
    requires GeometryOk(g) && |t| == g.Entries()
    ensures TableOk(t, g.MaxCluster()) && g.MaxCluster() >= 1
  {}

  /** The last sector of the last data cluster is still on the volume. */
  lemma ClusterOnVolume(g: Geometry, c: nat, s: nat)
    requires GeometryOk(g) && 2 <= c <= g.MaxCluster() && s < g.perCluster
    ensures g.ClusterLba(c) + s < g.partition + g.total
  {
    var dataLba := g.reserved + g.fatCount * g.fatSectors + g.rootSectors;
    var n := (g.total - dataLba) / g.perCluster;
    assert c - 2 <= n - 1;
    MulMono(c - 1, n, g.perCluster);
    DivMod(g.total - dataLba, g.perCluster);
    assert (c - 2) * g.perCluster + g.perCluster == (c - 1) * g.perCluster;
  }

  /** Two places of rows of n items are the same only for the same row and item. */
  lemma Place(n: nat, a: nat, i: nat, b: nat, j: nat)
    requires i < n && j < n && a * n + i == b * n + j
    ensures a == b && i == j
  {
    if a < b {
      MulMono(a + 1, b, n);
    } else if b < a {
      MulMono(b + 1, a, n);
    }
  }

  /** FAT sectors come before the root directory. */
  lemma FatBelowRoot(g: Geometry, k: nat, c: nat)
    requires k < g.fatCount && c < g.Entries()
    ensures g.FatLba(k, c) < g.RootStart()
  {
    MulMono(k + 1, g.fatCount, g.fatSectors);
    assert (k + 1) * g.fatSectors == k * g.fatSectors + g.fatSectors;
  }

  lemma FatApart(g: Geometry, k: nat, c: nat, j: nat, d: nat)
    requires c < g.Entries() && d < g.Entries() && g.FatLba(k, c) == g.FatLba(j, d)
    ensures k == j && c / 256 == d / 256
  {
    Place(g.fatSectors, k, c / 256, j, d / 256);
  }

  lemma ClustersApart(g: Geometry, c: nat, s: nat, d: nat, r: nat)
    requires c >= 2 && d >= 2 && s < g.perCluster && r < g.perCluster && g.ClusterLba(c) + s == g.ClusterLba(d) + r
    ensures c == d && s == r
  {
    Place(g.perCluster, c - 2, s, d - 2, r);
  }

  // ---- the volume's contents ----

  /** What FAT copy k holds for cluster c. */
  function CopyAt(g: Geometry, d: Disk, k: nat, c: nat): u16 { U16At(Get(d, g.FatLba(k, c)), c % 256 * 2) }

  /** Every copy of the table holds t. */
  ghost predicate FatsHold(g: Geometry, d: Disk, t: Table) {
    |t| == g.Entries() && forall k: nat, c: nat :: k < g.fatCount && c < |t| ==> CopyAt(g, d, k, c) == t[c]
  }

  /** clusters[c][s] is sector s of data cluster c. */
  type Clusters = seq<seq<Sector>>

  function SetSector(cl: Clusters, c: nat, s: nat, data: Sector): Clusters
    requires c < |cl| && s < |cl[c]|
  {
    var row: seq<Sector> := cl[c][s := data];
    cl[c := row]
  }

  ghost predicate ClusterHolds(g: Geometry, d: Disk, cl: Clusters, c: nat)
    requires 2 <= c < |cl|
  {
    |cl[c]| == g.perCluster && forall s: nat :: s < g.perCluster ==> cl[c][s] == Get(d, g.ClusterLba(c) + s)
  }

  ghost predicate DataHolds(g: Geometry, d: Disk, cl: Clusters) {
    |cl| == g.MaxCluster() + 1 && forall c: nat :: 2 <= c < |cl| ==> ClusterHolds(g, d, cl, c)
  }

  ghost predicate Represents(g: Geometry, d: Disk, t: Table, cl: Clusters) {
    FatsHold(g, d, t) && DataHolds(g, d, cl)
  }

  // ---- writing a table entry ----

  /** One turn of write_fat_entry's loop. */
  function WriteCopy(g: Geometry, d: Disk, k: nat, c: nat, v: u16): Disk {
    d[g.FatLba(k, c) := PutU16(Get(d, g.FatLba(k, c)), c % 256 * 2, v)]
  }

  /** Copies before k have the new entry and the others still hold t. */
  ghost predicate PartWritten(g: Geometry, d: Disk, t: Table, c: nat, v: u16, k: nat)
    requires c < |t|
  {
    |t| == g.Entries() &&
    forall j: nat, x: nat :: j < g.fatCount && x < |t| ==> CopyAt(g, d, j, x) == if j < k && x == c then v else t[x]
  }

  lemma CopyAfter(g: Geometry, d: Disk, k: nat, c: nat, v: u16, j: nat, x: nat)
    requires c < g.Entries() && x < g.Entries()
    ensures CopyAt(g, WriteCopy(g, d, k, c, v), j, x) == if j == k && x == c then v else CopyAt(g, d, j, x)
  {
    if g.FatLba(k, c) == g.FatLba(j, x) {
      FatApart(g, k, c, j, x);
      PutU16At(Get(d, g.FatLba(k, c)), c % 256 * 2, v, x % 256 * 2);
      assert x == x / 256 * 256 + x % 256 && c == c / 256 * 256 + c % 256;
    }
  }

  lemma PartStep(g: Geometry, d: Disk, t: Table, c: nat, v: u16, k: nat)
    requires c < |t| && k < g.fatCount && PartWritten(g, d, t, c, v, k)
    ensures PartWritten(g, WriteCopy(g, d, k, c, v), t, c, v, k + 1)
  {
    hide CopyAt, WriteCopy;
    var e := WriteCopy(g, d, k, c, v);
    forall j: nat, x: nat | j < g.fatCount && x < |t|
      ensures CopyAt(g, e, j, x) == if j < k + 1 && x == c then v else t[x]
    {
      CopyAfter(g, d, k, c, v, j, x);
    }
  }

  lemma PartBegins(g: Geometry, d: Disk, t: Table, c: nat, v: u16)
    requires FatsHold(g, d, t) && c < |t|
    ensures PartWritten(g, d, t, c, v, 0)
  {}

  lemma PartEnds(g: Geometry, d: Disk, t: Table, c: nat, v: u16)
    requires c < |t| && PartWritten(g, d, t, c, v, g.fatCount)
    ensures FatsHold(g, d, t[c := v])
  {
    hide CopyAt;
  }

  /** A write below the data area leaves every cluster alone. */
  lemma DataAbove(g: Geometry, d: Disk, cl: Clusters, lba: nat, s: Sector)
    requires DataHolds(g, d, cl) && lba < g.DataStart()
    ensures DataHolds(g, d[lba := s], cl)
  {
    hide ClusterHolds;
    var e := d[lba := s];
    forall c: nat | 2 <= c < |cl|
      ensures ClusterHolds(g, e, cl, c)
    {
      ClusterAbove(g, d, cl, lba, s, c);
    }
  }

  lemma ClusterAbove(g: Geometry, d: Disk, cl: Clusters, lba: nat, s: Sector, c: nat)
    requires lba < g.DataStart() && 2 <= c < |cl| && ClusterHolds(g, d, cl, c)
    ensures ClusterHolds(g, d[lba := s], cl, c)
  {
    hide Get;
    var e := d[lba := s];
    forall r: nat | r < g.perCluster
      ensures cl[c][r] == Get(e, g.ClusterLba(c) + r)
    {
      AboveData(g, c, r);
      GetOther(d, lba, s, g.ClusterLba(c) + r);
    }
  }

  lemma AboveData(g: Geometry, c: nat, r: nat)
    requires c >= 2
    ensures g.ClusterLba(c) + r >= g.DataStart() >= g.RootStart()
  {
    MulMono(0, c - 2, g.perCluster);
  }

  lemma GetOther(d: Disk, lba: nat, s: Sector, x: nat)
    ensures x != lba ==> Get(d[lba := s], x) == Get(d, x)
    ensures Get(d[lba := s], lba) == s
  {}

  /** The root directory's sectors are the same on both disks. */
  ghost predicate RootKept(g: Geometry, d: Disk, e: Disk) {
    forall x: nat :: g.RootStart() <= x < g.DataStart() ==> Get(e, x) == Get(d, x)
  }

  lemma RootStep(g: Geometry, d: Disk, e: Disk, lba: nat, s: Sector)
    requires RootKept(g, d, e) && (lba < g.RootStart() || lba >= g.DataStart())
    ensures RootKept(g, d, e[lba := s])
  {}

  lemma RootTrans(g: Geometry, d: Disk, e: Disk, f: Disk)
    requires RootKept(g, d, e) && RootKept(g, e, f)
    ensures RootKept(g, d, f)
  {
    hide Get;
  }

  lemma RootSame(g: Geometry, d: Disk)
    ensures RootKept(g, d, d)
  {}

  /** A write from the root directory on leaves every copy of the table alone. */
  lemma FatsBelow(g: Geometry, d: Disk, t: Table, lba: nat, s: Sector)
    requires FatsHold(g, d, t) && lba >= g.RootStart()
    ensures FatsHold(g, d[lba := s], t)
  {
    var e := d[lba := s];
    forall k: nat, c: nat | k < g.fatCount && c < |t|
      ensures CopyAt(g, e, k, c) == t[c]
    {
      FatBelowRoot(g, k, c);
      assert CopyAt(g, d, k, c) == t[c];
    }
  }

  /** Writing one sector of one cluster. */
  lemma ClusterWritten(g: Geometry, d: Disk, cl: Clusters, c: nat, s: nat, data: Sector)
    requires DataHolds(g, d, cl) && 2 <= c < |cl| && s < g.perCluster
    ensures |cl[c]| == g.perCluster && DataHolds(g, d[g.ClusterLba(c) + s := data], SetSector(cl, c, s, data))
  {
    hide Get;
    assert ClusterHolds(g, d, cl, c);
    var e, ml := d[g.ClusterLba(c) + s := data], SetSector(cl, c, s, data);
    forall x: nat | 2 <= x < |ml|
      ensures ClusterHolds(g, e, ml, x)
    {
      ClusterAfter(g, d, cl, c, s, data, x);
    }
  }

  lemma ClusterAfter(g: Geometry, d: Disk, cl: Clusters, c: nat, s: nat, data: Sector, x: nat)
    requires DataHolds(g, d, cl) && 2 <= c < |cl| && s < g.perCluster == |cl[c]| && 2 <= x < |cl|
    ensures ClusterHolds(g, d[g.ClusterLba(c) + s := data], SetSector(cl, c, s, data), x)
  {
    assert ClusterHolds(g, d, cl, x);
    var e, ml := d[g.ClusterLba(c) + s := data], SetSector(cl, c, s, data);
    forall r: nat | r < g.perCluster
      ensures ml[x][r] == Get(e, g.ClusterLba(x) + r)
    {
      if g.ClusterLba(c) + s == g.ClusterLba(x) + r {
        ClustersApart(g, c, s, x, r);
      }
    }
  }
}
