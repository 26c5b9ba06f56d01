/** The files of a FAT volume under the operations of src/kernel/fat.c, and what a full volume does to them. */
module FatSpace {
  import opened Seqs
  import opened Words
  import opened FatTable
  import opened FatChains
  import opened FatVolume
  import opened FatFiles

  // ---- All files stay disjoint chains ----

  /** The volume's files are the chains `fs`. */
  ghost predicate Stores(vol: Volume, fs: seq<seq<nat>>)
    reads vol.disk
  {
    vol.Mounted() && Files(vol.Table(), EocMin(vol.ft), fs)
  }

  /** The data of all files is as it was. */
  ghost predicate SameData(vol: Volume, fs: seq<seq<nat>>, d: seq<byte>, d': seq<byte>) {
    forall f, c :: 0 <= f < |fs| && c in fs[f] ==> SameCluster(vol, d, d', c)
  }

  lemma SparedFiles(vol: Volume, t: seq<nat>, fs: seq<seq<nat>>, d: seq<byte>, d': seq<byte>)
    requires vol.Mounted() && Files(t, EocMin(vol.ft), fs) && Spared(vol, t, d, d')
    ensures SameData(vol, fs, d, d')
  {
    forall f, c | 0 <= f < |fs| && c in fs[f] ensures SameCluster(vol, d, d', c) {
      var i :| 0 <= i < |fs[f]| && fs[f][i] == c;
      InChain(vol, t, fs[f], i);
      ClusterKept(vol, t, d, d', c);
    }
  }

  /** A new file of one cluster, if there is a free one; it holds zeros, and no other data is touched. */
  method NewFile(vol: Volume, ghost fs: seq<seq<nat>>) returns (c: nat)
    requires Stores(vol, fs)
    modifies vol.disk
    ensures c == 0 <==> |Vacant(old(vol.Table()))| == 0
    ensures Stores(vol, if c == 0 then fs else fs + [[c]])
    ensures SameData(vol, fs, old(vol.disk[..]), vol.disk[..]) && (c != 0 ==> Blank(vol, vol.disk[..], c))
  {
    ghost var t := vol.Table();
    NoneFreeIff(t);
    c := AllocCluster(vol, t);
    SparedFiles(vol, t, fs, old(vol.disk[..]), vol.disk[..]);
    if c != 0 {
      TakeVacant(t, c, EocMark(vol.ft));
      AddFile(t, EocMin(vol.ft), EocMark(vol.ft), fs, c);
    }
  }

  /** File `f` is given back, and its clusters with it. */
  method DeleteFile(vol: Volume, start: nat, ghost fs: seq<seq<nat>>, ghost f: nat)
    requires Stores(vol, fs) && f < |fs| && start == fs[f][0]
    modifies vol.disk
    ensures Stores(vol, fs[..f] + fs[f + 1..]) && vol.Table() == Cleared(old(vol.Table()), fs[f])
    ensures TablesOnly(vol, old(vol.disk[..]), vol.disk[..])
  {
    ghost var t := vol.Table();
    assert Chain(t, EocMin(vol.ft), fs[f]);
    NextInChain(vol, t, fs[f], 0);
    FreeChain(vol, start, t, fs[f]);
    DropFile(t, EocMin(vol.ft), fs, f);
  }

  /** The chain of file `f`; a file beyond the list has none yet. */
  ghost function ChainOf(fs: seq<seq<nat>>, f: nat): seq<nat> {
    if f < |fs| then fs[f] else []
  }

  /** The files when file `f` has the chain `ds`. */
  ghost function With(fs: seq<seq<nat>>, f: nat, ds: seq<nat>): seq<seq<nat>> {
    if ds == [] then fs else if f < |fs| then fs[f := ds] else fs + [ds]
  }

  lemma GrownStores(t: seq<nat>, t': seq<nat>, eoc: nat, fs: seq<seq<nat>>, f: nat, ds: seq<nat>)
    requires Files(t, eoc, fs) && eoc > 0 && Grown(t, t', ChainOf(fs, f), ds)
    requires if ds == [] then t' == t else Chain(t', eoc, ds)
    ensures Files(t', eoc, With(fs, f, ds))
  {
    if ds == [] {
    } else if f < |fs| {
      ExtendKeepsFiles(t, t', eoc, fs, f, ds);
    } else {
      forall c | c in ds ensures c < |t| && t[c] == 0 {
        var i :| 0 <= i < |ds| && ds[i] == c;
      }
      AddGrown(t, t', eoc, fs, ds);
    }
  }

  /** The first-cluster field of file `f`. */
  ghost predicate Heads(fs: seq<seq<nat>>, f: nat, start: nat) {
    if f < |fs| then fs[f] != [] && fs[f][0] == start else start < 2
  }

  /** File `f` grows, as far as free clusters allow; whether or not they suffice, all files stay disjoint chains. */
  method GrowFile(vol: Volume, start: nat, need: nat, ghost fs: seq<seq<nat>>, ghost f: nat)
    returns (r: nat, ghost ds: seq<nat>)
    requires Stores(vol, fs) && f <= |fs| && Heads(fs, f, start) && need > 0
    modifies vol.disk
    ensures ChainOf(fs, f) <= ds && Stores(vol, With(fs, f, ds))
    ensures r == 0 <==> |Vacant(old(vol.Table()))| < Reached(|ChainOf(fs, f)|, need) - |ChainOf(fs, f)|
    ensures r != 0 ==> ds != [] && ds[0] == r && |ds| == Reached(|ChainOf(fs, f)|, need)
    ensures r == 0 ==> |Vacant(vol.Table())| == 0
    ensures |ds| + |Vacant(vol.Table())| == |ChainOf(fs, f)| + |Vacant(old(vol.Table()))|
    ensures SameData(vol, fs, old(vol.disk[..]), vol.disk[..]) && BlankFrom(vol, vol.disk[..], ds, |ChainOf(fs, f)|)
  {
    ghost var t := vol.Table();
    if f < |fs| {
      assert Chain(t, EocMin(vol.ft), fs[f]);
      NextInChain(vol, t, fs[f], 0);
    }
    r, ds := ExtendChain(vol, start, need, t, ChainOf(fs, f));
    SparedFiles(vol, t, fs, old(vol.disk[..]), vol.disk[..]);
    NoneFreeIff(vol.Table());
    if ds == [] {
      assert vol.Table() == t;
    }
    GrownStores(t, vol.Table(), EocMin(vol.ft), fs, f, ds);
  }

  /** File `f` is cut to `len` bytes, or to nothing. */
  method ShrinkFile(vol: Volume, first: nat, oldLen: nat, len: nat, size: nat, ghost fs: seq<seq<nat>>, ghost f: nat)
    returns (first': nat, newLen: nat)
    requires Stores(vol, fs) && f < |fs| && Heads(fs, f, first)
    requires 0 < size < TWO_32 && oldLen < TWO_32 && Clusters(oldLen, size) <= |fs[f]|
    modifies vol.disk
    ensures len >= oldLen ==> Stores(vol, fs) && first' == first && newLen == oldLen
    ensures len < oldLen ==> newLen == len && Kept(len, size) <= |fs[f]|
    ensures len < oldLen && Kept(len, size) > 0 ==> first' == first && Stores(vol, fs[f := fs[f][..Kept(len, size)]])
    ensures len < oldLen && Kept(len, size) == 0 ==> first' == 0 && Stores(vol, fs[..f] + fs[f + 1..])
    ensures TablesOnly(vol, old(vol.disk[..]), vol.disk[..])
  {
    ghost var t := vol.Table();
    assert Chain(t, EocMin(vol.ft), fs[f]);
    NextInChain(vol, t, fs[f], 0);
    Storable(vol, EocMark(vol.ft));
    first', newLen := Truncate(vol, first, oldLen, len, size, t, fs[f]);
    if len < oldLen && Kept(len, size) > 0 {
      TruncateKeepsFiles(t, EocMin(vol.ft), EocMark(vol.ft), fs, f, Kept(len, size));
    }
    DropFile(t, EocMin(vol.ft), fs, f);
  }

  // ---- What a write does when the volume is full ----

  /**
   * The allocation in `fat_file_write`, which puts what the extension returns into the file's first-cluster field.
   * The file keeps its chain exactly if there are enough free clusters; if not, the field is 0, and the chain,
   * lengthened by every cluster that was free, is no file's any more.
   */
  method WriteExtends(vol: Volume, first: nat, need: nat, ghost fs: seq<seq<nat>>, ghost f: nat)
    returns (first': nat, ghost ds: seq<nat>)
    requires Stores(vol, fs) && f <= |fs| && Heads(fs, f, first) && need > 0
    modifies vol.disk
    ensures ChainOf(fs, f) <= ds && Stores(vol, With(fs, f, ds))
    ensures ds != [] ==> (Heads(With(fs, f, ds), f, first') <==> Enough(old(vol.Table()), fs, f, need))
    ensures if Enough(old(vol.Table()), fs, f, need) then |ds| == Reached(|ChainOf(fs, f)|, need)
            else first' == 0 && |Vacant(vol.Table())| == 0
    ensures |ds| + |Vacant(vol.Table())| == |ChainOf(fs, f)| + |Vacant(old(vol.Table()))|
    ensures SameData(vol, fs, old(vol.disk[..]), vol.disk[..]) && BlankFrom(vol, vol.disk[..], ds, |ChainOf(fs, f)|)
  {
    first', ds := GrowFile(vol, first, need, fs, f);
    if ds != [] {
      HeadIsCluster(vol, vol.Table(), With(fs, f, ds), f);
    }
  }

  /** The free clusters suffice for a chain of the length the extension goes for. */
  ghost predicate Enough(t: seq<nat>, fs: seq<seq<nat>>, f: nat, need: nat) {
    |Vacant(t)| >= Reached(|ChainOf(fs, f)|, need) - |ChainOf(fs, f)|
  }

  lemma HeadIsCluster(vol: Volume, t: seq<nat>, fs: seq<seq<nat>>, f: nat)
    requires vol.Mounted() && |t| == vol.totalClusters + 2 && Files(t, EocMin(vol.ft), fs) && f < |fs|
    ensures fs[f] != [] && fs[f][0] >= 2
  {
    assert Chain(t, EocMin(vol.ft), fs[f]);
    NextInChain(vol, t, fs[f], 0);
  }

  /** On any empty volume: a file that has taken every cluster, and is written once more at its end, is lost. */
  method FullVolumeLosesFile(vol: Volume) returns (first: nat, first': nat, ghost ds: seq<nat>)
    requires Stores(vol, []) && vol.totalClusters > 0 && |Vacant(vol.Table())| == vol.totalClusters
    modifies vol.disk
    ensures first >= 2 && first' == 0 && |ds| == vol.totalClusters && ds[0] == first && Stores(vol, [ds])
  {
    ghost var none: seq<seq<nat>> := [];
    first, ds := WriteExtends(vol, 0, vol.totalClusters + 1, none, 0);
    assert With(none, 0, ds) == [ds];
    HeadIsCluster(vol, vol.Table(), [ds], 0);
    ghost var es;
    first', es := WriteExtends(vol, first, vol.totalClusters + 1, [ds], 0);
    assert With([ds], 0, es) == [es];
    ds := es;
  }

  // ---- A volume to try it on ----

  lemma {:induction false} AllVacant(t: seq<nat>)
    requires |t| >= 2 && forall c :: 2 <= c < |t| ==> t[c] == 0
    ensures |Vacant(t)| == |t| - 2
    decreases |t|
  {
    if |t| == 2 {
      assert Vacant(t) == {};
    } else {
      var r := t[..|t| - 1];
      AllVacant(r);
      assert Vacant(t) == Vacant(r) + {|t| - 1};
    }
  }

  lemma ZeroEntry(ft: FatType, f: seq<byte>, c: nat)
    requires Covers(ft, f, c) && forall i :: 0 <= i < |f| ==> f[i] == 0
    ensures Entry(ft, f, c) == 0
  {
  }

  /** Tables of zeros: every cluster is free. */
  lemma ZeroDisk(vol: Volume)
    requires vol.Mounted() && forall i :: 0 <= i < vol.disk.Length ==> vol.disk[i] == 0
    ensures |Vacant(vol.Table())| == vol.totalClusters
  {
    var t := vol.Table();
    vol.HoldsAll(0, 0);
    var f := TableAt(vol.disk[..], vol.fatLba, vol.fatSize);
    forall c | 2 <= c < |t| ensures t[c] == 0 {
      vol.HoldsAll(0, c);
      ZeroEntry(vol.ft, f, c);
    }
    AllVacant(t);
  }

  /** A freshly formatted volume of sixteen clusters loses a file that fills it. */
  method SmallVolumeLosesFile() returns (vol: Volume, first': nat, ghost ds: seq<nat>)
    ensures fresh(vol.disk) && vol.totalClusters == 16 && first' == 0 && |ds| == 16 && Stores(vol, [ds])
  {
    var disk := new byte[SECTOR * 20](_ => 0);
    vol := new Volume.Mount(disk, 0, 1, 2, 1, 1, 20, 1);
    ZeroDisk(vol);
    var first;
    first, first', ds := FullVolumeLosesFile(vol);
  }
}
