// File contents over cluster chains: reading and writing byte ranges (src/drivers/fat16.c).
module FatContent {
  import opened Basics
  import opened SeqArith
  import opened FatVolume
  import opened Fat16

  /** The first sector, within a file, of its k-th cluster. */
  function Row(k: nat, per: nat): nat { k * per }

  lemma RowStep(k: nat, per: nat)
    ensures Row(k + 1, per) == Row(k, per) + per && Row(0, per) == 0
  {}

  lemma RowMono(a: nat, b: nat, per: nat)
    requires a <= b
    ensures Row(a, per) <= Row(b, per)
  {}

  /** The sectors of a file, in order. */
  function Sectors(cl: Clusters, cs: seq<u16>): seq<Sector> {
    if cs == [] then [] else (if cs[0] < |cl| then cl[cs[0]] else []) + Sectors(cl, cs[1..])
  }

  ghost predicate Rows(cl: Clusters, cs: seq<u16>, per: nat) {
    forall i :: 0 <= i < |cs| ==> cs[i] < |cl| && |cl[cs[i]]| == per
  }

  lemma {:induction false} SectorAt(cl: Clusters, cs: seq<u16>, per: nat, k: nat, s: nat)
    requires Rows(cl, cs, per)
    ensures |Sectors(cl, cs)| == Row(|cs|, per)
    ensures k < |cs| && s < per ==> Row(k, per) + s < Row(|cs|, per) && Sectors(cl, cs)[Row(k, per) + s] == cl[cs[k]][s]
    decreases |cs|
  {
    hide Row;
    RowStep(0, per);
    if cs != [] {
      RowStep(|cs| - 1, per);
      if k > 0 {
        RowStep(k - 1, per);
        SectorAt(cl, cs[1..], per, k - 1, s);
      } else {
        SectorAt(cl, cs[1..], per, k, s);
        RowMono(1, |cs|, per);
      }
    }
  }

  /** Files that share no cluster with what changed keep their sectors. */
  lemma {:induction false} SectorsSame(cl: Clusters, ml: Clusters, cs: seq<u16>)
    requires |cl| == |ml| && forall c: u16 :: c in cs && c < |cl| ==> cl[c] == ml[c]
    ensures Sectors(cl, cs) == Sectors(ml, cs)
    decreases |cs|
  {
    if cs != [] {
      assert cs[0] in cs;
      SectorsSame(cl, ml, cs[1..]);
    }
  }

  lemma ConcatSet(a: seq<Sector>, b: seq<Sector>, i: nat, x: Sector)
    requires i < |a| + |b|
    ensures (a + b)[i := x] == if i < |a| then a[i := x] + b else a + b[i - |a| := x]
  {}

  lemma HeadSet(cl: Clusters, cs: seq<u16>, s: nat, data: Sector)
    requires cs != [] && Distinct(cs) && cs[0] < |cl| && s < |cl[cs[0]]|
    ensures Sectors(SetSector(cl, cs[0], s, data), cs) == cl[cs[0]][s := data] + Sectors(cl, cs[1..])
  {
    SectorsSame(cl, SetSector(cl, cs[0], s, data), cs[1..]);
  }

  /** Writing a sector of the file's k-th cluster writes that sector of the file. */
  lemma {:induction false} SectorSet(cl: Clusters, cs: seq<u16>, per: nat, k: nat, s: nat, data: Sector)
    requires Rows(cl, cs, per) && Distinct(cs) && k < |cs| && s < per
    ensures Row(k, per) + s < |Sectors(cl, cs)|
    ensures Sectors(SetSector(cl, cs[k], s, data), cs) == Sectors(cl, cs)[Row(k, per) + s := data]
    decreases |cs|
  {
    hide Row, Sectors, SetSector;
    SectorAt(cl, cs, per, k, s);
    RowStep(0, per);
    Unfold(cl, cs);
    ConcatSet(cl[cs[0]], Sectors(cl, cs[1..]), Row(k, per) + s, data);
    if k > 0 {
      RowStep(k - 1, per);
      SectorSet(cl, cs[1..], per, k - 1, s, data);
      TailSet(cl, cs, k, s, data);
    } else {
      HeadSet(cl, cs, s, data);
    }
  }

  lemma Unfold(cl: Clusters, cs: seq<u16>)
    requires cs != [] && cs[0] < |cl|
    ensures Sectors(cl, cs) == cl[cs[0]] + Sectors(cl, cs[1..])
  {}

  lemma TailSet(cl: Clusters, cs: seq<u16>, k: nat, s: nat, data: Sector)
    requires 0 < k < |cs| && Distinct(cs) && cs[0] < |cl| && cs[k] < |cl| && s < |cl[cs[k]]|
    ensures Sectors(SetSector(cl, cs[k], s, data), cs) == cl[cs[0]] + Sectors(SetSector(cl, cs[k], s, data), cs[1..])
  {
    Unfold(SetSector(cl, cs[k], s, data), cs);
  }

  lemma {:induction false} SectorsConcat(cl: Clusters, cs: seq<u16>, ds: seq<u16>)
    ensures Sectors(cl, cs + ds) == Sectors(cl, cs) + Sectors(cl, ds)
    decreases |cs|
  {
    if cs == [] {
      assert cs + ds == ds;
    } else {
      assert (cs + ds)[1..] == cs[1..] + ds;
      SectorsConcat(cl, cs[1..], ds);
    }
  }

  lemma {:induction false} ZeroSectors(cl: Clusters, per: nat, ds: seq<u16>)
    requires forall i :: 0 <= i < |ds| ==> ds[i] < |cl| && cl[ds[i]] == Zeros(per)
    ensures Sectors(cl, ds) == Zeros(Row(|ds|, per))
    decreases |ds|
  {
    hide Row;
    RowStep(0, per);
    if ds != [] {
      RowStep(|ds| - 1, per);
      ZeroSectors(cl, per, ds[1..]);
    }
  }

  /** A file that grew holds its old sectors followed by zeros. */
  lemma AppendedSectors(g: Geometry, cl: Clusters, ml: Clusters, cs: seq<u16>, ds: seq<u16>)
    requires Appended(g, cl, ml, cs, ds) && ds[..|cs|] == cs && Distinct(ds) && forall i :: 0 <= i < |ds| ==>
            ds[i] < |cl|
    ensures Sectors(ml, ds) == Sectors(cl, cs) + Zeros(Row(|ds| - |cs|, g.perCluster))
  {
    hide Zeros, Sectors, Row;
    var rest := ds[|cs|..];
    assert ds == cs + rest;
    SectorsConcat(ml, cs, rest);
    forall i | 0 <= i < |rest|
      ensures rest[i] < |ml| && ml[rest[i]] == Zeros(g.perCluster)
    {
      assert rest[i] in rest;
    }
    ZeroSectors(ml, g.perCluster, rest);
    forall c: u16 | c in cs && c < |cl|
      ensures ml[c] == cl[c]
    {
      NotInRest(ds, |cs|, c);
    }
    SectorsSame(cl, ml, cs);
  }

  lemma NotInRest(ds: seq<u16>, n: nat, c: u16)
    requires Distinct(ds) && n <= |ds| && c in ds[..n]
    ensures c !in ds[n..]
  {
    var i :| 0 <= i < n && ds[i] == c;
    assert forall j :: n <= j < |ds| ==> ds[j] != c;
  }

  // ---- bytes ----

  function ByteAt(ss: seq<Sector>, o: nat): byte
    requires o < SECTOR * |ss|
  {
    ss[o / SECTOR][o % SECTOR]
  }

  /** A sector with bytes copied into it from `at` on. */
  function Patch(s: Sector, at: nat, bytes: seq<byte>): Sector
    requires at + |bytes| <= SECTOR
  {
    s[..at] + bytes + s[at + |bytes|..]
  }

  /** ss is the file rs with `data` written at `offset` and no other byte changed. */
  ghost predicate Spliced(rs: seq<Sector>, ss: seq<Sector>, offset: nat, data: seq<byte>) {
    |ss| == |rs| && forall o: nat :: o < SECTOR * |ss| ==> ByteAt(ss, o) == SplicedByte(rs, offset, data, o)
  }

  function SplicedByte(rs: seq<Sector>, offset: nat, data: seq<byte>, o: nat): byte
    requires o < SECTOR * |rs|
  {
    if offset <= o < offset + |data| then data[o - offset] else ByteAt(rs, o)
  }

  lemma SplicedNone(rs: seq<Sector>, offset: nat)
    ensures Spliced(rs, rs, offset, [])
  {}

  lemma PatchByte(ss: seq<Sector>, q: nat, at: nat, bytes: seq<byte>, o: nat)
    requires q < |ss| && at + |bytes| <= SECTOR && o < SECTOR * |ss|
    ensures var r: seq<Sector> := ss[q := Patch(ss[q], at, bytes)];
            ByteAt(r, o) == if SECTOR * q + at <= o < SECTOR * q + at + |bytes| then bytes[o - (SECTOR * q + at)]
                    else ByteAt(ss, o)
  {
    assert o == SECTOR * (o / SECTOR) + o % SECTOR;
  }

  /** Writing the next bytes of the buffer into the sector where the last ones ended. */
  lemma SpliceStep(rs: seq<Sector>, ss: seq<Sector>, offset: nat, data: seq<byte>, w: nat, n: nat, q: nat, at: nat)
    requires w + n <= |data| && q < |ss| && at + n <= SECTOR && offset + w == SECTOR * q + at
    requires Spliced(rs, ss, offset, data[..w])
    ensures var r: seq<Sector> := ss[q := Patch(ss[q], at, data[w..w + n])]; Spliced(rs, r, offset, data[..w + n])
  {
    hide Patch, ByteAt;
    var r: seq<Sector> := ss[q := Patch(ss[q], at, data[w..w + n])];
    forall o: nat | o < SECTOR * |r|
      ensures ByteAt(r, o) == SplicedByte(rs, offset, data[..w + n], o)
    {
      PatchByte(ss, q, at, data[w..w + n], o);
      assert ByteAt(ss, o) == SplicedByte(rs, offset, data[..w], o);
    }
  }

  /** The n bytes from `offset` on. */
  function Bytes(ss: seq<Sector>, offset: nat, n: nat): (r: seq<byte>)
    requires offset + n <= SECTOR * |ss|
    ensures |r| == n && forall i :: 0 <= i < n ==> r[i] == ByteAt(ss, offset + i)
  {
    if n == 0 then [] else Bytes(ss, offset, n - 1) + [ByteAt(ss, offset + n - 1)]
  }

  /** What was written is what a read of the same range returns. */
  lemma ReadBack(rs: seq<Sector>, ss: seq<Sector>, offset: nat, data: seq<byte>)
    requires Spliced(rs, ss, offset, data) && offset + |data| <= SECTOR * |ss|
    ensures Bytes(ss, offset, |data|) == data
  {
    hide ByteAt;
    forall i | 0 <= i < |data|
      ensures Bytes(ss, offset, |data|)[i] == data[i]
    {
      assert ByteAt(ss, offset + i) == SplicedByte(rs, offset, data, offset + i);
    }
  }

  lemma ByteIn(ss: seq<Sector>, o: nat, q: nat, at: nat)
    requires q < |ss| && at < SECTOR && o == SECTOR * q + at
    ensures ByteAt(ss, o) == ss[q][at]
  {}

  /** Reading on from where the last chunk ended. */
  lemma BytesStep(ss: seq<Sector>, offset: nat, n: nat, m: nat, q: nat, at: nat)
    requires q < |ss| && at + m <= SECTOR && offset + n == SECTOR * q + at
    ensures offset + n + m <= SECTOR * |ss| && Bytes(ss, offset, n + m) == Bytes(ss, offset, n) + ss[q][at..at + m]
  {
    hide ByteAt;
    var r, e := Bytes(ss, offset, n + m), Bytes(ss, offset, n) + ss[q][at..at + m];
    forall i | 0 <= i < n + m
      ensures r[i] == e[i]
    {
      if i >= n {
        ByteIn(ss, offset + i, q, at + (i - n));
      }
    }
  }
}
