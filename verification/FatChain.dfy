// Cluster chains in a file allocation table (src/drivers/fat16.c).
module FatChain {
  import opened Basics
  import opened SeqArith

  const FREE_CLUSTER: u16 := 0
  const EOC: u16 := 0xFFF8
  const EOF: u16 := 0xFFFF
  const BAD_CLUSTER: u16 := 0xFFF7

  type Table = seq<u16>

  /** cluster_is_data, for a volume whose largest data cluster is `max`. */
  predicate IsData(max: nat, c: u16) { 2 <= c <= max }

  /** Every data cluster has an entry, and no data cluster number means end of chain or bad. */
  ghost predicate TableOk(t: Table, max: nat) { max < |t| && max < BAD_CLUSTER }

  /** cs is the chain from cs[0]: each entry names the next cluster and the last one ends the chain. */
  ghost predicate Chain(t: Table, max: nat, cs: seq<u16>) {
    && cs != [] && TableOk(t, max)
    && (forall i :: 0 <= i < |cs| ==> IsData(max, cs[i]))
    && (forall i :: 0 <= i < |cs| - 1 ==> t[cs[i]] == cs[i + 1])
    && t[cs[|cs| - 1]] >= EOC
  }

  ghost predicate Disjoint(cs: seq<u16>, ds: seq<u16>) { forall c :: c in cs ==> c !in ds }

  lemma Link(t: Table, max: nat, cs: seq<u16>, i: nat)
    requires Chain(t, max, cs) && i < |cs|
    ensures i < |cs| - 1 ==> t[cs[i]] == cs[i + 1] && 2 <= t[cs[i]] <= max
    ensures IsData(max, cs[i]) && t[cs[i]] != FREE_CLUSTER && (i < |cs| - 1 <==> t[cs[i]] < EOC)
  {
    assert i < |cs| - 1 ==> IsData(max, cs[i + 1]);
  }

  // ---- chains have no cycles ----

  /** If a cluster came twice, so would every cluster after it, up to the end. */
  lemma {:induction false} SameTail(t: Table, max: nat, cs: seq<u16>, i: nat, j: nat, n: nat)
    requires Chain(t, max, cs) && i < j && j + n < |cs| && cs[i] == cs[j]
    ensures cs[i + n] == cs[j + n]
  {
    if n > 0 {
      SameTail(t, max, cs, i, j, n - 1);
    }
  }

  /** A chain that ends visits no cluster twice. */
  lemma Acyclic(t: Table, max: nat, cs: seq<u16>)
    requires Chain(t, max, cs)
    ensures Distinct(cs)
  {
    forall i, j | 0 <= i < j < |cs|
      ensures cs[i] != cs[j]
    {
      if cs[i] == cs[j] {
        var n := |cs| - 1 - j;
        SameTail(t, max, cs, i, j, n);
        Link(t, max, cs, i + n);
      }
    }
  }

  /** Only one chain starts at a cluster. */
  lemma {:induction false} OneChain(t: Table, max: nat, cs: seq<u16>, ds: seq<u16>)
    requires Chain(t, max, cs) && Chain(t, max, ds) && cs[0] == ds[0]
    ensures cs == ds
  {
    Link(t, max, cs, 0);
    Link(t, max, ds, 0);
    if |cs| > 1 {
      ChainTail(t, max, cs, 1);
      ChainTail(t, max, ds, 1);
      OneChain(t, max, cs[1..], ds[1..]);
    }
  }

  lemma ChainTail(t: Table, max: nat, cs: seq<u16>, k: nat)
    requires Chain(t, max, cs) && k < |cs|
    ensures Chain(t, max, cs[k..])
  {
    var ds := cs[k..];
    forall i | 0 <= i < |ds| - 1
      ensures t[ds[i]] == ds[i + 1]
    {
      assert t[cs[k + i]] == cs[k + i + 1];
    }
  }

  // ---- a chain fits in the volume ----

  /** The numbers 2 .. n. */
  function Span(n: nat): set<int> { if n < 2 then {} else Span(n - 1) + {n} }

  lemma {:induction false} SpanSize(n: nat)
    ensures (forall c :: c in Span(n) <==> 2 <= c <= n) && |Span(n)| == if n < 2 then 0 else n - 1
  {
    if n >= 2 {
      SpanSize(n - 1);
    }
  }

  function Members(cs: seq<u16>): set<int> { set c | c in cs }

  lemma {:induction false} MembersSize(cs: seq<u16>)
    requires Distinct(cs)
    ensures |Members(cs)| == |cs|
  {
    if cs != [] {
      var rest := cs[..|cs| - 1];
      MembersSize(rest);
      assert cs == rest + [cs[|cs| - 1]];
      assert Members(cs) == Members(rest) + {cs[|cs| - 1]};
    }
  }

  /** A chain is shorter than the guard free_chain_from counts down from. */
  lemma ChainFits(t: Table, max: nat, cs: seq<u16>)
    requires Chain(t, max, cs)
    ensures |cs| < max
  {
    Acyclic(t, max, cs);
    MembersSize(cs);
    SpanSize(max);
    SubsetSize(Members(cs), Span(max));
  }

  // ---- counting free clusters ----

  /** Number of free clusters from 2 up to n. */
  function FreeCount(t: Table, n: nat): nat
    requires n < |t|
  {
    if n < 2 then 0 else FreeCount(t, n - 1) + if t[n] == FREE_CLUSTER then 1 else 0
  }

  lemma {:induction false} FreeCountSet(t: Table, n: nat, c: u16, v: u16)
    requires n < |t| && c < |t|
    ensures FreeCount(t[c := v], n) ==
            FreeCount(t, n) + if 2 <= c <= n then (if v == 0 then 1 else 0) - (if t[c] == 0 then 1 else 0) else 0
  {
    if n >= 2 {
      FreeCountSet(t, n - 1, c, v);
    }
  }

  lemma {:induction false} NoneFree(t: Table, n: nat)
    requires n < |t|
    ensures FreeCount(t, n) == 0 <==> forall c :: 2 <= c <= n ==> t[c] != FREE_CLUSTER
  {
    if n >= 2 {
      NoneFree(t, n - 1);
      assert (forall c :: 2 <= c <= n ==> t[c] != FREE_CLUSTER) <==>
             t[n] != FREE_CLUSTER && forall c :: 2 <= c <= n - 1 ==> t[c] != FREE_CLUSTER;
    }
  }

  // ---- what a change to the table does to chains ----

  /** A chain none of whose entries changed is still that chain. */
  lemma ChainSame(t: Table, u: Table, max: nat, cs: seq<u16>)
    requires Chain(t, max, cs) && |u| == |t| && forall c :: c in cs ==> u[c] == t[c]
    ensures Chain(u, max, cs)
  {
    forall i | 0 <= i < |cs| - 1
      ensures u[cs[i]] == cs[i + 1]
    {
      assert cs[i] in cs;
    }
    assert cs[|cs| - 1] in cs;
  }

  /** A free cluster is on no chain. */
  lemma FreeNotInChain(t: Table, max: nat, cs: seq<u16>, c: u16)
    requires Chain(t, max, cs) && c < |t| && t[c] == FREE_CLUSTER
    ensures c !in cs
  {
    if c in cs {
      var i :| 0 <= i < |cs| && cs[i] == c;
      Link(t, max, cs, i);
    }
  }

  /** Cutting a chain: the front keeps its clusters and ends there. */
  lemma CutFront(t: Table, max: nat, cs: seq<u16>, n: nat, v: u16)
    requires Chain(t, max, cs) && 0 < n <= |cs| && v >= EOC
    ensures Chain(t[cs[n - 1] := v], max, cs[..n])
  {
    Acyclic(t, max, cs);
    var u, ds := t[cs[n - 1] := v], cs[..n];
    forall i | 0 <= i < |ds| - 1
      ensures u[ds[i]] == ds[i + 1]
    {
      assert cs[i] != cs[n - 1];
    }
  }

  /** Linking a free cluster behind the last one makes the chain one longer. */
  lemma Extended(t: Table, max: nat, cs: seq<u16>, c: u16)
    requires Chain(t, max, cs) && IsData(max, c) && t[c] == FREE_CLUSTER
    ensures Chain(t[c := EOF][cs[|cs| - 1] := c], max, cs + [c])
  {
    Acyclic(t, max, cs);
    FreeNotInChain(t, max, cs, c);
    var u, ds := t[c := EOF][cs[|cs| - 1] := c], cs + [c];
    forall i | 0 <= i < |ds| - 1
      ensures u[ds[i]] == ds[i + 1]
    {
      if i < |cs| - 1 {
        assert cs[i] != cs[|cs| - 1];
        assert cs[i] in cs;
      }
    }
    assert cs[|cs| - 1] in cs;
  }

  // ---- freeing ----

  /** The table with every cluster of cs marked free. */
  function FreeAll(t: Table, cs: seq<u16>): (u: Table)
    ensures |u| == |t|
    decreases |cs|
  {
    if cs == [] then t else FreeAll(if cs[0] < |t| then t[cs[0] := FREE_CLUSTER] else t, cs[1..])
  }

  lemma {:induction false} FreeAllAt(t: Table, cs: seq<u16>, c: u16)
    requires c < |t|
    ensures FreeAll(t, cs)[c] == if c in cs then FREE_CLUSTER else t[c]
    decreases |cs|
  {
    if cs != [] {
      FreeAllAt(if cs[0] < |t| then t[cs[0] := FREE_CLUSTER] else t, cs[1..], c);
    }
  }

  /** Freeing distinct clusters in use frees exactly that many. */
  lemma {:induction false} FreeAllCount(t: Table, max: nat, cs: seq<u16>)
    requires TableOk(t, max) && Distinct(cs) && forall i :: 0 <= i < |cs| ==>
            IsData(max, cs[i]) && t[cs[i]] != FREE_CLUSTER
    ensures FreeCount(FreeAll(t, cs), max) == FreeCount(t, max) + |cs|
    decreases |cs|
  {
    if cs != [] {
      FreeCountSet(t, max, cs[0], FREE_CLUSTER);
      var u, rest := t[cs[0] := FREE_CLUSTER], cs[1..];
      forall i | 0 <= i < |rest|
        ensures IsData(max, rest[i]) && u[rest[i]] != FREE_CLUSTER
      {
        assert rest[i] == cs[i + 1] != cs[0];
      }
      FreeAllCount(u, max, rest);
    }
  }

  // ---- growing a chain ----

  /** A freshly allocated cluster joins the end of cs. */
  function Extend(t: Table, cs: seq<u16>, c: u16): Table {
    if c >= |t| then t
    else if cs == [] || cs[|cs| - 1] >= |t| then t[c := EOF]
    else t[c := EOF][cs[|cs| - 1] := c]
  }

  /** u and ds come from t and cs by appending clusters that were free, and nothing else changed. */
  ghost predicate Grown(t: Table, max: nat, cs: seq<u16>, u: Table, ds: seq<u16>) {
    && |u| == |t| && TableOk(t, max) && |cs| <= |ds| && ds[..|cs|] == cs
    && (ds != [] ==> Chain(u, max, ds))
    && (forall i :: |cs| <= i < |ds| ==> ds[i] < |t| && t[ds[i]] == FREE_CLUSTER)
    && (forall c: u16 :: c < |t| && c !in ds ==> u[c] == t[c])
    && FreeCount(u, max) + |ds| == FreeCount(t, max) + |cs|
  }

  lemma ExtendChain(t: Table, max: nat, cs: seq<u16>, c: u16)
    requires TableOk(t, max) && (cs != [] ==> Chain(t, max, cs)) && IsData(max, c) && t[c] == FREE_CLUSTER
    ensures Chain(Extend(t, cs, c), max, cs + [c]) && FreeCount(Extend(t, cs, c), max) == FreeCount(t, max) - 1
    ensures |Extend(t, cs, c)| == |t| && forall x: u16 :: x < |t| && x !in cs + [c] ==> Extend(t, cs, c)[x] == t[x]
  {
    hide FreeCount;
    FreeCountSet(t, max, c, EOF);
    if cs != [] {
      Extended(t, max, cs, c);
      FreeNotInChain(t, max, cs, c);
      Link(t, max, cs, |cs| - 1);
      assert cs[|cs| - 1] in cs;
      FreeCountSet(t[c := EOF], max, cs[|cs| - 1], c);
    }
  }

  lemma GrowOne(t: Table, max: nat, cs: seq<u16>, u: Table, ds: seq<u16>, c: u16)
    requires Grown(t, max, cs, u, ds) && IsData(max, c) && u[c] == FREE_CLUSTER
    ensures Grown(t, max, cs, Extend(u, ds, c), ds + [c])
  {
    hide FreeCount, Chain, Extend;
    ExtendChain(u, max, ds, c);
    NewWasFree(t, max, cs, u, ds, c);
    var e := Extend(u, ds, c);
    forall x: u16 | x < |t| && x !in ds + [c]
      ensures e[x] == t[x]
    {
      assert x !in ds;
    }
  }

  lemma NewWasFree(t: Table, max: nat, cs: seq<u16>, u: Table, ds: seq<u16>, c: u16)
    requires Grown(t, max, cs, u, ds) && IsData(max, c) && u[c] == FREE_CLUSTER
    ensures c !in ds && t[c] == FREE_CLUSTER
  {
    if ds != [] {
      FreeNotInChain(u, max, ds, c);
    }
  }

  // ---- cutting a chain ----

  /** The chain is cut to its first n clusters and the rest are freed. */
  function Cut(t: Table, cs: seq<u16>, n: nat): Table
    requires 0 < n <= |cs| && cs[n - 1] < |t|
  {
    FreeAll(t[cs[n - 1] := EOF], cs[n..])
  }

  lemma CutKeeps(t: Table, max: nat, cs: seq<u16>, n: nat)
    requires Chain(t, max, cs) && 0 < n <= |cs|
    ensures |Cut(t, cs, n)| == |t| && Chain(Cut(t, cs, n), max, cs[..n])
    ensures forall i :: n <= i < |cs| ==> Cut(t, cs, n)[cs[i]] == FREE_CLUSTER
    ensures forall c: u16 :: c < |t| && c !in cs ==> Cut(t, cs, n)[c] == t[c]
  {
    hide FreeAll;
    Acyclic(t, max, cs);
    CutFront(t, max, cs, n, EOF);
    var u := t[cs[n - 1] := EOF];
    forall c: u16 | c < |t|
      ensures FreeAll(u, cs[n..])[c] == if c in cs[n..] then FREE_CLUSTER else u[c]
    {
      FreeAllAt(u, cs[n..], c);
    }
    CutTails(t, max, cs, n);
    ChainSame(u, Cut(t, cs, n), max, cs[..n]);
  }

  lemma CutTails(t: Table, max: nat, cs: seq<u16>, n: nat)
    requires Chain(t, max, cs) && n <= |cs|
    ensures forall c :: c in cs[..n] ==> c !in cs[n..]
    ensures forall i :: n <= i < |cs| ==> cs[i] < |t| && cs[i] in cs[n..]
    ensures forall i :: 0 <= i < |cs| ==> cs[i] in cs
  {
    Acyclic(t, max, cs);
    forall i | n <= i < |cs|
      ensures cs[i] in cs[n..]
    {
      assert cs[n..][i - n] == cs[i];
    }
  }

  lemma CutCount(t: Table, max: nat, cs: seq<u16>, n: nat)
    requires Chain(t, max, cs) && 0 < n <= |cs|
    ensures FreeCount(Cut(t, cs, n), max) + n == FreeCount(t, max) + |cs|
  {
    hide FreeCount, FreeAll;
    Acyclic(t, max, cs);
    Link(t, max, cs, n - 1);
    FreeCountSet(t, max, cs[n - 1], EOF);
    var u, rest := t[cs[n - 1] := EOF], cs[n..];
    forall i | 0 <= i < |rest|
      ensures IsData(max, rest[i]) && u[rest[i]] != FREE_CLUSTER
    {
      Link(t, max, cs, n + i);
    }
    FreeAllCount(u, max, rest);
  }

  /** The tail that a cut frees is a chain of its own. */
  lemma CutTail(t: Table, max: nat, cs: seq<u16>, n: nat, v: u16)
    requires Chain(t, max, cs) && 0 < n < |cs|
    ensures Chain(t[cs[n - 1] := v], max, cs[n..])
  {
    Acyclic(t, max, cs);
    ChainTail(t, max, cs, n);
    ChainSame(t, t[cs[n - 1] := v], max, cs[n..]);
  }
}
