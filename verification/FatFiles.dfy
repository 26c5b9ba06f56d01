/** Allocating, extending, freeing and truncating cluster chains, src/kernel/fat.c. */
module FatFiles {
  import Bits
  import opened Seqs
  import opened Words
  import opened FatTable
  import opened FatChains
  import opened FatVolume

  /** Every value the code stores is one its table can hold. */
  lemma Storable(vol: Volume, v: nat)
    requires vol.Mounted() && (v < vol.totalClusters + 2 || v == EocMark(vol.ft))
    ensures v % Range(vol.ft) == v && EocMark(vol.ft) >= EocMin(vol.ft) > 0
  {
  }

  lemma ClusterFits(total: nat, per: nat, c: nat)
    requires 2 <= c < total + 2
    ensures 0 <= (c - 2) * per && (c - 2) * per + per <= total * per
  {
    assert (c - 2) * per + per == (c - 1) * per;
    Bits.MulMonotone(c - 1, total, per);
  }

  lemma TableBelow(d: seq<byte>, d': seq<byte>, base: nat, size: nat, lo: nat, hi: nat)
    requires OnDisk(d, base, size) && SECTOR * (base + size) <= lo && SameOutside(d, d', lo, hi)
    ensures OnDisk(d', base, size) && TableAt(d', base, size) == TableAt(d, base, size)
  {
  }

  lemma CopyBelow(vol: Volume, d: seq<byte>, d': seq<byte>, lo: nat, hi: nat, k: nat)
    requires vol.Mounted() && |d| == vol.disk.Length && SECTOR * vol.dataLba <= lo && SameOutside(d, d', lo, hi)
    requires k < vol.numFats
    ensures var b := Base(vol.fatLba, vol.fatSize, k);
            && OnDisk(d, b, vol.fatSize) && OnDisk(d', b, vol.fatSize)
            && TableAt(d', b, vol.fatSize) == TableAt(d, b, vol.fatSize)
  {
    vol.HoldsAll(k, 0);
    TableBelow(d, d', Base(vol.fatLba, vol.fatSize, k), vol.fatSize, lo, hi);
  }

  /** Writing beyond the tables leaves every entry and every copy as it was. */
  lemma DataWrite(vol: Volume, d: seq<byte>, d': seq<byte>, lo: nat, hi: nat)
    requires vol.Mounted() && |d| == vol.disk.Length && SECTOR * vol.dataLba <= lo && SameOutside(d, d', lo, hi)
    ensures OnDisk(d, vol.fatLba, vol.fatSize) && OnDisk(d', vol.fatLba, vol.fatSize)
    ensures TableAt(d', vol.fatLba, vol.fatSize) == TableAt(d, vol.fatLba, vol.fatSize)
    ensures vol.Mirrored(d) ==> vol.Mirrored(d')
  {
    CopyBelow(vol, d, d', lo, hi, 0);
    if vol.Mirrored(d) {
      forall k | 0 <= k < vol.numFats ensures vol.SameCopy(d', k) {
        CopyBelow(vol, d, d', lo, hi, k);
        assert vol.SameCopy(d, k);
      }
    }
  }

  // ---- What is written, and what is not ----

  /** Byte `i` is in no copy of the table and in no cluster that is free in `t`. */
  ghost predicate Guarded(vol: Volume, t: seq<nat>, i: int) {
    || i < SECTOR * vol.fatLba
    || (SECTOR * vol.TablesEnd() <= i && forall c :: c in Vacant(t) ==> !vol.InCluster(c, i))
  }

  /** Nothing was written but the tables and clusters that were free in `t`. */
  ghost predicate Spared(vol: Volume, t: seq<nat>, d: seq<byte>, d': seq<byte>) {
    |d'| == |d| && forall i :: 0 <= i < |d| && Guarded(vol, t, i) ==> d'[i] == d[i]
  }

  /** Nothing was written but the tables. */
  ghost predicate TablesOnly(vol: Volume, d: seq<byte>, d': seq<byte>) {
    SameOutside(d, d', SECTOR * vol.fatLba, SECTOR * vol.TablesEnd())
  }

  ghost predicate Blank(vol: Volume, d: seq<byte>, c: int) {
    forall i :: 0 <= i < |d| && vol.InCluster(c, i) ==> d[i] == 0
  }

  ghost predicate SameCluster(vol: Volume, d: seq<byte>, d': seq<byte>, c: int) {
    |d'| == |d| && forall i :: 0 <= i < |d| && vol.InCluster(c, i) ==> d'[i] == d[i]
  }

  lemma SparedTables(vol: Volume, t: seq<nat>, d: seq<byte>, d': seq<byte>)
    requires TablesOnly(vol, d, d')
    ensures Spared(vol, t, d, d')
  {
  }

  lemma SparedCluster(vol: Volume, t: seq<nat>, d: seq<byte>, d': seq<byte>, c: nat)
    requires vol.Mounted() && c in Vacant(t)
    requires var lba := vol.dataLba + (c - 2) * vol.sectorsPerCluster;
             SameOutside(d, d', SECTOR * lba, SECTOR * (lba + vol.sectorsPerCluster))
    ensures Spared(vol, t, d, d')
  {
    assert (c - 2) * vol.sectorsPerCluster >= 0;
    BasesApart(vol.fatLba, vol.fatSize, 0, vol.numFats);
    forall i | 0 <= i < |d| && Guarded(vol, t, i) ensures d'[i] == d[i] && !vol.InCluster(c, i) {
    }
  }

  lemma SparedTwice(vol: Volume, t: seq<nat>, u: seq<nat>, d: seq<byte>, d': seq<byte>, d'': seq<byte>)
    requires Spared(vol, t, d, d') && Spared(vol, u, d', d'') && Vacant(u) <= Vacant(t)
    ensures Spared(vol, t, d, d'')
  {
    forall i | 0 <= i < |d| && Guarded(vol, t, i) ensures Guarded(vol, u, i) {
    }
  }

  lemma ClustersApart(vol: Volume, c: nat, e: nat, i: int)
    requires vol.InCluster(c, i) && vol.InCluster(e, i)
    ensures c == e
  {
    if c < e {
      Bits.MulMonotone(c - 2 + 1, e - 2, vol.sectorsPerCluster);
    } else if e < c {
      Bits.MulMonotone(e - 2 + 1, c - 2, vol.sectorsPerCluster);
    }
  }

  /** The data of a cluster that was not free is as it was. */
  lemma ClusterKept(vol: Volume, t: seq<nat>, d: seq<byte>, d': seq<byte>, c: nat)
    requires vol.Mounted() && Spared(vol, t, d, d') && 2 <= c < |t| && t[c] != 0
    ensures SameCluster(vol, d, d', c)
  {
    assert (c - 2) * vol.sectorsPerCluster >= 0;
    forall i | 0 <= i < |d| && vol.InCluster(c, i) ensures Guarded(vol, t, i) {
      forall e | e in Vacant(t) ensures !vol.InCluster(e, i) {
        if vol.InCluster(e, i) {
          ClustersApart(vol, c, e, i);
          assert false;
        }
      }
    }
  }

  /** The clusters of `ds` from position `k` on hold zeros. */
  ghost predicate BlankFrom(vol: Volume, d: seq<byte>, ds: seq<nat>, k: nat) {
    forall i :: k <= i < |ds| ==> Blank(vol, d, ds[i])
  }

  lemma BlankKept(vol: Volume, u: seq<nat>, d: seq<byte>, d': seq<byte>, ds: seq<nat>, k: nat)
    requires vol.Mounted() && Spared(vol, u, d, d') && Chain(u, EocMin(vol.ft), ds) && BlankFrom(vol, d, ds, k)
    ensures BlankFrom(vol, d', ds, k)
  {
    forall i | k <= i < |ds| ensures Blank(vol, d', ds[i]) {
      InChain(vol, u, ds, i);
      ClusterKept(vol, u, d, d', ds[i]);
    }
  }

  lemma InChain(vol: Volume, u: seq<nat>, ds: seq<nat>, i: nat)
    requires vol.Mounted() && Chain(u, EocMin(vol.ft), ds) && i < |ds|
    ensures 2 <= ds[i] < |u| && u[ds[i]] != 0
  {
    assert Linked(u, EocMin(vol.ft), ds, i);
    if i + 1 < |ds| {
      assert Linked(u, EocMin(vol.ft), ds, i + 1);
    }
  }

  /** Zero the sectors of a cluster. */
  method ZeroCluster(vol: Volume, c: nat)
    requires vol.Mounted() && 2 <= c < vol.totalClusters + 2
    modifies vol.disk
    ensures vol.Table() == old(vol.Table())
    ensures vol.Mirrored(old(vol.disk[..])) ==> vol.Mirrored(vol.disk[..])
    ensures Blank(vol, vol.disk[..], c)
    ensures var lba := vol.dataLba + (c - 2) * vol.sectorsPerCluster;
            SameOutside(old(vol.disk[..]), vol.disk[..], SECTOR * lba, SECTOR * (lba + vol.sectorsPerCluster))
  {
    ghost var d := vol.disk[..];
    ClusterFits(vol.totalClusters, vol.sectorsPerCluster, c);
    var lba := vol.dataLba + (c - 2) * vol.sectorsPerCluster;
    var zero := seq(SECTOR, _ => 0 as byte);
    for s := 0 to vol.sectorsPerCluster
      invariant SameOutside(d, vol.disk[..], SECTOR * lba, SECTOR * (lba + vol.sectorsPerCluster))
      invariant forall i :: SECTOR * lba <= i < SECTOR * (lba + s) && i < vol.disk.Length ==> vol.disk[i] == 0
    {
      vol.WriteSector(lba + s, zero);
    }
    DataWrite(vol, d, vol.disk[..], SECTOR * lba, SECTOR * (lba + vol.sectorsPerCluster));
  }

  method Claim(vol: Volume, c: nat, ghost t: seq<nat>)
    requires vol.Mounted() && 2 <= c < vol.totalClusters + 2 && vol.Table() == t && t[c] == 0
    modifies vol.disk
    ensures vol.Table() == t[c := EocMark(vol.ft)]
    ensures Spared(vol, t, old(vol.disk[..]), vol.disk[..]) && Blank(vol, vol.disk[..], c)
    ensures vol.Mirrored(old(vol.disk[..])) ==> vol.Mirrored(vol.disk[..])
  {
    Storable(vol, EocMark(vol.ft));
    ghost var d := vol.disk[..];
    vol.SetEntry(c, EocMark(vol.ft));
    ghost var e := vol.disk[..];
    ZeroCluster(vol, c);
    SparedTables(vol, t, d, e);
    SparedCluster(vol, t, e, vol.disk[..], c);
    SparedTwice(vol, t, t, d, e, vol.disk[..]);
  }

  /** `c` is the first free cluster of the table. */
  ghost predicate FirstFree(t: seq<nat>, c: nat) {
    2 <= c < |t| && t[c] == 0 && forall e :: 2 <= e < c ==> t[e] != 0
  }

  ghost predicate NoneFree(t: seq<nat>) {
    forall e :: 2 <= e < |t| ==> t[e] != 0
  }

  method FindFree(vol: Volume, ghost t: seq<nat>) returns (c: nat)
    requires vol.Mounted() && vol.Table() == t
    ensures vol.Table() == t && if c == 0 then NoneFree(t) else FirstFree(t, c)
  {
    c := 2;
    while c < vol.totalClusters + 2
      invariant 2 <= c <= |t| && |t| == vol.totalClusters + 2
      invariant forall e :: 2 <= e < c ==> t[e] != 0
      invariant vol.Table() == t
    {
      var v := vol.Get(c, t);
      if v == 0 {
        return;
      }
      c := c + 1;
    }
    c := 0;
  }

  /** `fat_alloc_cluster`: the first free cluster, marked as an end of chain, or 0 if there is none. */
  method AllocCluster(vol: Volume, ghost t: seq<nat>) returns (c: nat)
    requires vol.Mounted() && vol.Table() == t
    modifies vol.disk
    ensures c == 0 ==> NoneFree(t) && vol.Table() == t
    ensures c != 0 ==> FirstFree(t, c) && c < vol.totalClusters + 2 && vol.Table() == t[c := EocMark(vol.ft)]
    ensures Spared(vol, t, old(vol.disk[..]), vol.disk[..]) && (c != 0 ==> Blank(vol, vol.disk[..], c))
    ensures vol.Mirrored(old(vol.disk[..])) ==> vol.Mirrored(vol.disk[..])
  {
    c := FindFree(vol, t);
    if c != 0 {
      Claim(vol, c, t);
    }
  }

  predicate IsEoc(vol: Volume, v: nat) {
    v >= EocMin(vol.ft)
  }

  predicate IsCluster(vol: Volume, c: nat) {
    2 <= c < vol.totalClusters + 2
  }

  /** The chain a first-cluster field stands for: none if it is not a cluster number. */
  ghost predicate Starts(vol: Volume, t: seq<nat>, start: nat, cs: seq<nat>) {
    if IsCluster(vol, start) then Chain(t, EocMin(vol.ft), cs) && cs[0] == start else cs == []
  }

  /** The entry of cluster `cs[i]`: the next cluster, or an end mark that is no cluster number. */
  lemma NextInChain(vol: Volume, t: seq<nat>, cs: seq<nat>, i: nat)
    requires vol.Mounted() && |t| == vol.totalClusters + 2 && Chain(t, EocMin(vol.ft), cs) && i < |cs|
    ensures IsCluster(vol, cs[i]) && !IsEoc(vol, cs[i])
    ensures if i + 1 < |cs| then t[cs[i]] == cs[i + 1] && IsCluster(vol, cs[i + 1]) && !IsEoc(vol, cs[i + 1])
            else IsEoc(vol, t[cs[i]]) && !IsCluster(vol, t[cs[i]])
  {
    assert Linked(t, EocMin(vol.ft), cs, i);
    if i + 1 < |cs| {
      assert Linked(t, EocMin(vol.ft), cs, i + 1);
    }
  }

  /** `fat_follow_chain`: the `n`-th cluster, or 0 past the end. */
  method FollowChain(vol: Volume, start: nat, n: nat, ghost t: seq<nat>, ghost cs: seq<nat>) returns (r: nat)
    requires vol.Mounted() && vol.Table() == t && Starts(vol, t, start, cs)
    ensures r == if n < |cs| then cs[n] else 0
  {
    var c := start;
    for i := 0 to n
      invariant vol.Table() == t
      invariant i <= |cs| && if i < |cs| then c == cs[i] else !IsCluster(vol, c)
    {
      if !IsCluster(vol, c) || IsEoc(vol, c) {
        if i < |cs| {
          NextInChain(vol, t, cs, i);
        }
        return 0;
      }
      NextInChain(vol, t, cs, i);
      c := vol.Get(c, t);
    }
    if n < |cs| {
      NextInChain(vol, t, cs, n);
    }
    r := if IsCluster(vol, c) && !IsEoc(vol, c) then c else 0;
  }

  /** Follow the links to the end of the chain, counting. */
  method FindEnd(vol: Volume, start: nat, ghost t: seq<nat>, ghost cs: seq<nat>) returns (c: nat, count: nat)
    requires vol.Mounted() && vol.Table() == t && Chain(t, EocMin(vol.ft), cs) && cs[0] == start
    ensures vol.Table() == t && count == |cs| && c == cs[|cs| - 1]
  {
    c, count := start, 1;
    NextInChain(vol, t, cs, 0);
    var v := vol.Get(c, t);
    while !IsEoc(vol, v)
      invariant vol.Table() == t
      invariant 1 <= count <= |cs| && c == cs[count - 1] && IsCluster(vol, c) && v == t[c]
      decreases |cs| - count
    {
      NextInChain(vol, t, cs, count - 1);
      c := v;
      count := count + 1;
      v := vol.Get(c, t);
    }
    NextInChain(vol, t, cs, count - 1);
  }

  /** `ds` continues `cs` with clusters that were free, and no entry outside `ds` has changed. */
  ghost predicate Grown(t: seq<nat>, t': seq<nat>, cs: seq<nat>, ds: seq<nat>) {
    && |t'| == |t| && cs <= ds
    && (forall i :: |cs| <= i < |ds| ==> ds[i] < |t| && t[ds[i]] == 0)
    && (forall c :: 0 <= c < |t| && c !in ds ==> t'[c] == t[c])
  }

  lemma GrowStep(t: seq<nat>, t': seq<nat>, eoc: nat, mark: nat, cs: seq<nat>, ds: seq<nat>, c: nat)
    requires Grown(t, t', cs, ds) && Chain(t', eoc, ds) && eoc > 0 && mark >= eoc
    requires 2 <= c < |t'| && t'[c] == 0
    ensures ds[|ds| - 1] < |t'|
    ensures var t'' := t'[c := mark][ds[|ds| - 1] := c];
            Grown(t, t'', cs, ds + [c]) && Chain(t'', eoc, ds + [c])
  {
    FreeIsOutside(t', eoc, ds, c);
    Append(t', eoc, mark, ds, c);
  }

  /** A cluster allocated and linked to the end of a chain is one free cluster less. */
  lemma OneFewer(vol: Volume, u: seq<nat>, ds: seq<nat>, nc: nat)
    requires vol.Mounted() && Chain(u, EocMin(vol.ft), ds) && FirstFree(u, nc) && ds[|ds| - 1] < |u|
    ensures |Vacant(u[nc := EocMark(vol.ft)][ds[|ds| - 1] := nc])| == |Vacant(u)| - 1
    ensures Vacant(u[nc := EocMark(vol.ft)][ds[|ds| - 1] := nc]) <= Vacant(u)
  {
    Storable(vol, EocMark(vol.ft));
    TakeVacant(u, nc, EocMark(vol.ft));
    assert Linked(u, EocMin(vol.ft), ds, |ds| - 1);
    RelinkVacant(u[nc := EocMark(vol.ft)], ds[|ds| - 1], nc);
  }

  lemma NoneFreeIff(t: seq<nat>)
    ensures NoneFree(t) <==> |Vacant(t)| == 0
  {
    if NoneFree(t) {
      assert Vacant(t) == {};
    } else {
      var e :| 2 <= e < |t| && t[e] == 0;
      assert e in Vacant(t);
    }
  }

  /** One cluster more at the end of the chain. */
  method AddCluster(vol: Volume, last: nat, ghost k: nat, ghost u: seq<nat>, ghost ds: seq<nat>) returns (nc: nat)
    requires vol.Mounted() && vol.Table() == u && Chain(u, EocMin(vol.ft), ds) && last == ds[|ds| - 1]
    requires BlankFrom(vol, vol.disk[..], ds, k)
    modifies vol.disk
    ensures last < |u| && Spared(vol, u, old(vol.disk[..]), vol.disk[..])
    ensures nc == 0 ==> NoneFree(u) && vol.Table() == u && BlankFrom(vol, vol.disk[..], ds, k)
    ensures nc != 0 ==> 2 <= nc < |u| && u[nc] == 0 && vol.Table() == u[nc := EocMark(vol.ft)][last := nc]
    ensures nc != 0 ==> |Vacant(vol.Table())| == |Vacant(u)| - 1 && Vacant(vol.Table()) <= Vacant(u)
    ensures nc != 0 ==> BlankFrom(vol, vol.disk[..], ds + [nc], k)
    ensures vol.Mirrored(old(vol.disk[..])) ==> vol.Mirrored(vol.disk[..])
  {
    ghost var d := vol.disk[..];
    InChain(vol, u, ds, |ds| - 1);
    nc := AllocCluster(vol, u);
    ghost var e := vol.disk[..];
    BlankKept(vol, u, d, e, ds, k);
    if nc != 0 {
      Storable(vol, nc);
      OneFewer(vol, u, ds, nc);
      vol.SetEntry(last, nc);
      SparedTables(vol, u, e, vol.disk[..]);
      SparedTwice(vol, u, u, d, e, vol.disk[..]);
      LinkedBlank(vol, u, e, vol.disk[..], ds, nc, k);
    }
  }

  lemma TablesKeepBlank(vol: Volume, d: seq<byte>, d': seq<byte>, c: nat)
    requires vol.Mounted() && TablesOnly(vol, d, d') && Blank(vol, d, c) && c >= 2
    ensures Blank(vol, d', c)
  {
    assert (c - 2) * vol.sectorsPerCluster >= 0;
  }

  lemma LinkedBlank(vol: Volume, u: seq<nat>, d: seq<byte>, d': seq<byte>, ds: seq<nat>, nc: nat, k: nat)
    requires vol.Mounted() && TablesOnly(vol, d, d') && Chain(u, EocMin(vol.ft), ds) && nc >= 2
    requires BlankFrom(vol, d, ds, k) && Blank(vol, d, nc)
    ensures BlankFrom(vol, d', ds + [nc], k)
  {
    var es := ds + [nc];
    forall i | k <= i < |es| ensures Blank(vol, d', es[i]) {
      if i < |ds| {
        InChain(vol, u, ds, i);
      }
      TablesKeepBlank(vol, d, d', es[i]);
    }
  }

  /** The allocation loop of `fat_extend_chain`, from the end of the chain on. */
  method Lengthen(vol: Volume, last: nat, have: nat, need: nat, ghost t: seq<nat>, ghost t0: seq<nat>, ghost cs: seq<nat>, ghost ds0: seq<nat>)
    returns (ok: bool, ghost ds: seq<nat>)
    requires vol.Mounted() && vol.Table() == t0 && Chain(t0, EocMin(vol.ft), ds0) && Grown(t, t0, cs, ds0)
    requires have == |ds0| && last == ds0[|ds0| - 1]
    modifies vol.disk
    ensures Chain(vol.Table(), EocMin(vol.ft), ds) && ds0 <= ds && Grown(t, vol.Table(), cs, ds)
    ensures if ok then |ds| == (if need > have then need else have) else |ds| < need && NoneFree(vol.Table())
    ensures |Vacant(vol.Table())| == |Vacant(t0)| - (|ds| - have)
    ensures Spared(vol, t0, old(vol.disk[..]), vol.disk[..]) && BlankFrom(vol, vol.disk[..], ds, have)
    ensures vol.Mirrored(old(vol.disk[..])) ==> vol.Mirrored(vol.disk[..])
  {
    ds := ds0;
    ghost var u := t0;
    var c, count := last, have;
    while count < need
      invariant have <= count && (count <= need || count == have) && count == |ds| && c == ds[|ds| - 1] && ds0 <= ds
      invariant vol.Table() == u && Chain(u, EocMin(vol.ft), ds) && Grown(t, u, cs, ds)
      invariant |Vacant(u)| == |Vacant(t0)| - (|ds| - have) && Vacant(u) <= Vacant(t0)
      invariant Spared(vol, t0, old(vol.disk[..]), vol.disk[..]) && BlankFrom(vol, vol.disk[..], ds, have)
      invariant vol.Mirrored(old(vol.disk[..])) ==> vol.Mirrored(vol.disk[..])
    {
      ghost var was := vol.disk[..];
      var nc := AddCluster(vol, c, have, u, ds);
      SparedTwice(vol, t0, u, old(vol.disk[..]), was, vol.disk[..]);
      if nc == 0 {
        return false, ds;
      }
      Storable(vol, EocMark(vol.ft));
      GrowStep(t, u, EocMin(vol.ft), EocMark(vol.ft), cs, ds, nc);
      u := u[nc := EocMark(vol.ft)][c := nc];
      ds := ds + [nc];
      c := nc;
      count := count + 1;
    }
    ok := true;
  }

  /**
   * `fat_extend_chain`. From an existing chain it reaches the larger of the old and the requested length;
   * from none it counts the first cluster twice and so ends one short of any request above one.
   */
  method ExtendChain(vol: Volume, start: nat, need: nat, ghost t: seq<nat>, ghost cs: seq<nat>)
    returns (r: nat, ghost ds: seq<nat>)
    requires vol.Mounted() && vol.Table() == t && Starts(vol, t, start, cs) && (cs == [] ==> start < 2)
    modifies vol.disk
    ensures Grown(t, vol.Table(), cs, ds)
    ensures need == 0 ==> r == start && ds == cs && vol.Table() == t
    ensures need > 0 && r != 0 ==> Chain(vol.Table(), EocMin(vol.ft), ds) && ds[0] == r && |ds| == Reached(|cs|, need)
    ensures need > 0 ==> (r == 0 <==> |Vacant(t)| < Reached(|cs|, need) - |cs|)
    ensures |Vacant(vol.Table())| == |Vacant(t)| - (|ds| - |cs|)
    ensures Spared(vol, t, old(vol.disk[..]), vol.disk[..]) && BlankFrom(vol, vol.disk[..], ds, |cs|)
    ensures need > 0 && r == 0 ==> NoneFree(vol.Table()) && |ds| == |cs| + |Vacant(t)| && (ds != [] ==> Chain(vol.Table(), EocMin(vol.ft), ds))
    ensures vol.Mirrored(old(vol.disk[..])) ==> vol.Mirrored(vol.disk[..])
  {
    ds := cs;
    if need == 0 {
      return start, cs;
    }
    var first, want := start, need;
    ghost var u := t;
    if start < 2 {
      NoneFreeIff(t);
      first := AllocCluster(vol, t);
      if first == 0 {
        return 0, [];
      }
      TakeVacant(t, first, EocMark(vol.ft));
      want := need - 1;
      Storable(vol, EocMark(vol.ft));
      Single(t, EocMin(vol.ft), EocMark(vol.ft), first);
      u := t[first := EocMark(vol.ft)];
      ds := [first];
    }
    var c, count := FindEnd(vol, first, u, ds);
    ghost var e, es := vol.disk[..], ds;
    var ok;
    ok, ds := Lengthen(vol, c, count, want, t, u, cs, ds);
    SparedTwice(vol, t, u, old(vol.disk[..]), e, vol.disk[..]);
    BlankKept(vol, u, e, vol.disk[..], es, |cs|);
    NoneFreeIff(vol.Table());
    r := if ok then first else 0;
  }

  /** Length reached by a successful extension of a chain of `have` clusters. */
  function Reached(have: nat, need: nat): nat {
    if have > 0 then if need > have then need else have
    else if need > 2 then need - 1 else 1
  }

  /** The caller gets the clusters it asked for exactly when it had a chain, or asked for at most one. */
  lemma ReachedSuffices(have: nat, need: nat)
    requires need > 0
    ensures Reached(have, need) >= need <==> have > 0 || need == 1
  {
  }

  /** On any volume with a free cluster, a new file that asks for two clusters is told that it has them, and has one. */
  method TwoClustersAskedOneGot(vol: Volume, ghost t: seq<nat>) returns (r: nat, ghost ds: seq<nat>)
    requires vol.Mounted() && vol.Table() == t && |Vacant(t)| > 0
    modifies vol.disk
    ensures r != 0 && Chain(vol.Table(), EocMin(vol.ft), ds) && ds == [r]
  {
    r, ds := ExtendChain(vol, 0, 2, t, []);
  }

  /** A chain is no longer than the volume has clusters. */
  lemma {:induction false} Pigeonhole(cs: seq<nat>, n: nat)
    requires Distinct(cs) && forall i :: 0 <= i < |cs| ==> cs[i] < n
    ensures |cs| <= n
    decreases n
  {
    assert |cs| > 0 ==> cs[0] < n;
    if n > 0 {
      if k :| 0 <= k < |cs| && cs[k] == n - 1 {
        var rest := cs[..k] + cs[k + 1..];
        Pigeonhole(rest, n - 1);
      } else {
        Pigeonhole(cs, n - 1);
      }
    }
  }

  lemma ChainIsShort(vol: Volume, t: seq<nat>, cs: seq<nat>)
    requires |t| == vol.totalClusters + 2 && Chain(t, EocMin(vol.ft), cs)
    ensures |cs| <= vol.totalClusters
  {
    var ds := seq(|cs|, i requires 0 <= i < |cs| => if cs[i] >= 2 then cs[i] - 2 else 0);
    forall i | 0 <= i < |cs| ensures 2 <= cs[i] < vol.totalClusters + 2 {
      assert Linked(t, EocMin(vol.ft), cs, i);
    }
    Pigeonhole(ds, vol.totalClusters);
  }

  lemma ClearedKeeps(t: seq<nat>, cs: seq<nat>, i: nat)
    requires Distinct(cs) && i < |cs| && cs[i] < |t|
    ensures Cleared(t, cs[..i])[cs[i]] == t[cs[i]]
  {
    assert cs[i] !in cs[..i];
  }

  /** `fat_free_chain`: the clusters of the chain become free, no other entry changes. */
  method FreeChain(vol: Volume, start: nat, ghost t: seq<nat>, ghost cs: seq<nat>)
    requires vol.Mounted() && vol.Table() == t && Starts(vol, t, start, cs)
    modifies vol.disk
    ensures vol.Table() == Cleared(t, cs)
    ensures TablesOnly(vol, old(vol.disk[..]), vol.disk[..])
    ensures vol.Mirrored(old(vol.disk[..])) ==> vol.Mirrored(vol.disk[..])
  {
    var c, steps := start, 0;
    assert Cleared(t, cs[..0]) == t;
    if cs != [] {
      ChainIsShort(vol, t, cs);
    }
    while IsCluster(vol, c) && !IsEoc(vol, c) && steps < vol.totalClusters
      invariant 0 <= steps <= |cs| && if steps < |cs| then c == cs[steps] else !IsCluster(vol, c)
      invariant vol.Table() == Cleared(t, cs[..steps])
      invariant TablesOnly(vol, old(vol.disk[..]), vol.disk[..])
      invariant vol.Mirrored(old(vol.disk[..])) ==> vol.Mirrored(vol.disk[..])
    {
      NextInChain(vol, t, cs, steps);
      ClearedKeeps(t, cs, steps);
      ClearNext(t, cs, steps);
      var next := vol.Get(c, Cleared(t, cs[..steps]));
      Storable(vol, 0);
      vol.SetEntry(c, 0);
      c := next;
      steps := steps + 1;
      if !IsCluster(vol, next) || IsEoc(vol, next) {
        break;
      }
    }
    if steps < |cs| {
      NextInChain(vol, t, cs, steps);
    }
    assert cs[..|cs|] == cs;
    if IsCluster(vol, c) { // left over only by a chain that loops
      assert false;
    }
  }

  // ---- Truncation ----

  /** Clusters that hold `len` bytes. */
  function Clusters(len: nat, size: nat): nat
    requires size > 0
  {
    (len + size - 1) / size
  }

  /** Clusters `fat_truncate_impl` keeps: the sum before the division is a 32-bit one. */
  function Kept(len: nat, size: nat): nat
    requires size > 0
  {
    (len + size - 1) % TWO_32 / size
  }

  /** That many and no fewer. */
  lemma ClustersLeast(len: nat, size: nat)
    requires size > 0
    ensures len <= Clusters(len, size) * size < len + size
  {
    var n := Clusters(len, size);
    assert len + size - 1 == n * size + (len + size - 1) % size;
  }

  lemma ClustersMonotone(a: nat, b: nat, size: nat)
    requires size > 0 && a <= b
    ensures Clusters(a, size) <= Clusters(b, size)
  {
    DivMonotone(a + size - 1, b + size - 1, size);
  }

  lemma DivMonotone(a: nat, b: nat, d: nat)
    requires d > 0 && a <= b
    ensures a / d <= b / d
  {
    var p, q := a / d, b / d;
    assert a == p * d + a % d && b == q * d + b % d;
    if q < p {
      assert (p - q) * d >= d by {
        Bits.MulMonotone(1, p - q, d);
      }
    }
  }

  lemma DivSmall(a: nat, d: nat)
    requires a < d
    ensures a / d == 0
  {
  }

  lemma WrapOnce(a: nat)
    requires a < 2 * TWO_32
    ensures a % TWO_32 == if a < TWO_32 then a else a - TWO_32
  {
  }

  /** It keeps what the new length needs exactly if that sum does not wrap; otherwise it keeps nothing. */
  lemma KeptSuffices(len: nat, size: nat)
    requires 0 < len < TWO_32 && 0 < size < TWO_32
    ensures Kept(len, size) == (if len + size - 1 < TWO_32 then Clusters(len, size) else 0)
    ensures Clusters(len, size) > 0
  {
    var sum := len + size - 1;
    WrapOnce(sum);
    if sum >= TWO_32 {
      DivSmall(sum - TWO_32, size);
    }
    DivMonotone(size, sum, size);
    assert size / size == 1;
  }

  /** A file of 4 GB less 256 bytes, in clusters of one sector, is truncated to nothing. */
  lemma LargeFileLost()
    ensures Kept(0xFFFF_FF00, SECTOR) == 0 && Clusters(0xFFFF_FF00, SECTOR) == 0x80_0000
  {
  }

  /** What truncation leaves: the first `n` clusters as a chain, the others free, every other file as it was. */
  ghost function Truncated(t: seq<nat>, mark: nat, cs: seq<nat>, n: nat): seq<nat>
    requires n <= |cs| && (n > 0 ==> cs[n - 1] < |t|)
  {
    if n == 0 then Cleared(t, cs) else Cleared(t[cs[n - 1] := mark], cs[n..])
  }

  /** `fat_truncate_impl` on a file whose chain covers its length. */
  method Truncate(vol: Volume, first: nat, oldLen: nat, len: nat, size: nat, ghost t: seq<nat>, ghost cs: seq<nat>)
    returns (first': nat, newLen: nat)
    requires vol.Mounted() && vol.Table() == t && Starts(vol, t, first, cs) && (cs == [] ==> first < 2)
    requires 0 < size < TWO_32 && oldLen < TWO_32 && Clusters(oldLen, size) <= |cs|
    modifies vol.disk
    ensures len >= oldLen ==> first' == first && newLen == oldLen && vol.Table() == t
    ensures len < oldLen ==>
              var n := Kept(len, size);
              && newLen == len && n <= |cs| && first' == (if n == 0 && first >= 2 then 0 else first)
              && (n > 0 ==> cs[n - 1] < |t|) && vol.Table() == Truncated(t, EocMark(vol.ft), cs, n)
    ensures TablesOnly(vol, old(vol.disk[..]), vol.disk[..])
    ensures vol.Mirrored(old(vol.disk[..])) ==> vol.Mirrored(vol.disk[..])
  {
    first', newLen := first, oldLen;
    if len >= oldLen {
      return;
    }
    newLen := len;
    var need := (len + size - 1) % TWO_32 / size;
    KeptAtMost(len, oldLen, size);
    if need == 0 {
      if first >= 2 {
        FreeChain(vol, first, t, cs);
        first' := 0;
      } else {
        assert Cleared(t, cs) == t;
      }
    } else {
      CutAfter(vol, first, need, t, cs);
    }
  }

  lemma KeptAtMost(len: nat, oldLen: nat, size: nat)
    requires len < oldLen < TWO_32 && 0 < size < TWO_32
    ensures Kept(len, size) <= Clusters(oldLen, size)
  {
    ClustersMonotone(len, oldLen, size);
    if len > 0 {
      KeptSuffices(len, size);
    }
  }

  /** The `n`-th cluster of the chain and its entry. */
  method Nth(vol: Volume, first: nat, n: nat, ghost t: seq<nat>, ghost cs: seq<nat>) returns (c: nat, next: nat)
    requires vol.Mounted() && vol.Table() == t && Chain(t, EocMin(vol.ft), cs) && cs[0] == first && 1 <= n <= |cs|
    ensures vol.Table() == t && c == cs[n - 1] && IsCluster(vol, c) && next == t[c]
  {
    c := first;
    for i := 1 to n
      invariant vol.Table() == t && c == cs[i - 1]
    {
      NextInChain(vol, t, cs, i - 1);
      c := vol.Get(c, t);
    }
    NextInChain(vol, t, cs, n - 1);
    next := vol.Get(c, t);
  }

  /** Keep the first `n` clusters: end the chain there and free what followed. */
  method CutAfter(vol: Volume, first: nat, n: nat, ghost t: seq<nat>, ghost cs: seq<nat>)
    requires vol.Mounted() && vol.Table() == t && Chain(t, EocMin(vol.ft), cs) && cs[0] == first && 1 <= n <= |cs|
    modifies vol.disk
    ensures cs[n - 1] < |t| && vol.Table() == Truncated(t, EocMark(vol.ft), cs, n)
    ensures TablesOnly(vol, old(vol.disk[..]), vol.disk[..])
    ensures vol.Mirrored(old(vol.disk[..])) ==> vol.Mirrored(vol.disk[..])
  {
    var c, next := Nth(vol, first, n, t, cs);
    NextInChain(vol, t, cs, n - 1);
    Storable(vol, EocMark(vol.ft));
    Cut(t, EocMin(vol.ft), EocMark(vol.ft), cs, n);
    vol.SetEntry(c, EocMark(vol.ft));
    if next >= 2 && !IsEoc(vol, next) {
      FreeChain(vol, next, t[c := EocMark(vol.ft)], cs[n..]);
    } else {
      assert Cleared(t[c := EocMark(vol.ft)], cs[n..]) == t[c := EocMark(vol.ft)];
    }
  }

  /** All files stay disjoint chains when one of them is truncated to `n` clusters. */
  lemma TruncateKeepsFiles(t: seq<nat>, eoc: nat, mark: nat, fs: seq<seq<nat>>, f: nat, n: nat)
    requires Files(t, eoc, fs) && f < |fs| && 1 <= n <= |fs[f]| && mark >= eoc > 0
    ensures fs[f][n - 1] < |t| && Files(Truncated(t, mark, fs[f], n), eoc, fs[f := fs[f][..n]])
  {
    var cs := fs[f];
    Cut(t, eoc, mark, cs, n);
    var t1 := t[cs[n - 1] := mark];
    var t2 := Truncated(t, mark, cs, n);
    assert forall c :: c in cs[..n] ==> c !in cs[n..];
    ChainFrame(t1, t2, eoc, cs[..n]);
    ReplaceFile(t, t2, eoc, fs, f, cs[..n]);
  }

  /** All files stay disjoint chains when one of them is extended. */
  lemma ExtendKeepsFiles(t: seq<nat>, t': seq<nat>, eoc: nat, fs: seq<seq<nat>>, f: nat, ds: seq<nat>)
    requires Files(t, eoc, fs) && f < |fs| && eoc > 0 && Grown(t, t', fs[f], ds) && Chain(t', eoc, ds)
    ensures Files(t', eoc, fs[f := ds])
  {
    forall c | c in ds ensures c in fs[f] || (c < |t| && t[c] == 0) {
      var i :| 0 <= i < |ds| && ds[i] == c;
    }
    forall c | 0 <= c < |t| && c !in fs[f] && t[c] != 0 ensures t'[c] == t[c] {
      assert forall i :: |fs[f]| <= i < |ds| ==> ds[i] != c;
      assert forall i :: 0 <= i < |fs[f]| ==> ds[i] == fs[f][i];
    }
    ReplaceFile(t, t', eoc, fs, f, ds);
  }
}
