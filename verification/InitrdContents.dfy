/** What can be found and read in a boot archive, in terms of the files it was made from. */
module InitrdContents {
  import opened Words
  import opened TarFields
  import opened TarHeader
  import opened InitrdPaths
  import opened InitrdTree
  import opened Initrd
  import TarArchive

  datatype Item = Item(path: Path, data: seq<byte>)

  function FileOf(x: Item): TarArchive.File {
    TarArchive.File(Join(x.path), x.data)
  }

  function FilesOf(xs: seq<Item>): (r: seq<TarArchive.File>)
    ensures |r| == |xs| && forall i :: 0 <= i < |xs| ==> r[i] == FileOf(xs[i])
  {
    seq(|xs|, i requires 0 <= i < |xs| => FileOf(xs[i]))
  }

  predicate Packable(x: Item) {
    Normal(x.path) && |Join(x.path)| <= 99 && |x.data| <= SIZE_LIMIT
  }

  /** The last item with path `q`, if any. */
  function Last(xs: seq<Item>, q: Path): (r: Option<nat>)
    ensures r.Some? ==> r.value < |xs| && xs[r.value].path == q
  {
    if xs == [] then None
    else if xs[|xs| - 1].path == q then Some(|xs| - 1)
    else Last(xs[..|xs| - 1], q)
  }

  // ---- Directories on the way ----

  lemma {:induction false} DirsAbove(m: map<Path, Leaf>, q: Path, r: Path)
    ensures r in WithDirs(m, q) <==> r in m || (r != [] && r <= q)
    ensures r in WithDirs(m, q) ==> WithDirs(m, q)[r] == if r in m then m[r] else Dir
  {
    if q != [] {
      var up := q[..|q| - 1];
      DirsAbove(m, up, r);
      assert r <= q <==> r == q || r <= up;
    }
  }

  /** What is in the map is in it with everything above. */
  ghost predicate Closed(m: map<Path, Leaf>) {
    [] in m && forall q, k :: q in m && 0 <= k <= |q| ==> q[..k] in m
  }

  lemma DirsClosed(m: map<Path, Leaf>, q: Path)
    requires Closed(m)
    ensures Closed(WithDirs(m, q))
  {
    var n := WithDirs(m, q);
    DirsAbove(m, q, []);
    forall r, k | r in n && 0 <= k <= |r| ensures r[..k] in n {
      DirsAbove(m, q, r);
      DirsAbove(m, q, r[..k]);
    }
  }

  // ---- The map after loading ----

  /** Every file of `xs` is in the map where `es` found it, the last of each path, and all else are directories. */
  ghost predicate Holds(m: map<Path, Leaf>, xs: seq<Item>, es: seq<TarArchive.Found>)
    requires |xs| <= |es|
  {
    && Closed(m) && m[[]] == Dir
    && forall q {:trigger Last(xs, q)} :: HoldsAt(m, q, Last(xs, q), es)
  }

  ghost predicate HoldsAt(m: map<Path, Leaf>, q: Path, last: Option<nat>, es: seq<TarArchive.Found>) {
    match last
    case Some(i) => q in m && i < |es| && m[q] == File(es[i].offset, es[i].size)
    case None => q in m ==> m[q] == Dir
  }

  lemma StepIs(m: map<Path, Leaf>, f: TarArchive.Found, q: Path)
    requires Normal(q) && f.name == Join(q) && f.kind == ZERO
    ensures Step(m, f) == WithDirs(m, q[..|q| - 1])[q := File(f.offset, f.size)]
  {
    NormalSurvives(q);
  }

  lemma StepClosed(m: map<Path, Leaf>, q: Path, leaf: Leaf)
    requires Closed(m) && q != []
    ensures Closed(WithDirs(m, q[..|q| - 1])[q := leaf])
  {
    var up := q[..|q| - 1];
    DirsClosed(m, up);
    var n := WithDirs(m, up)[q := leaf];
    forall r, k | r in n && 0 <= k <= |r| ensures r[..k] in n {
      if r == q && k < |q| {
        assert q[..k] == up[..k] && up[..k] <= up;
        DirsAbove(m, up, up[..k]);
      } else if r == q {
        assert q[..k] == q;
      }
    }
  }

  lemma StepHolds(m: map<Path, Leaf>, xs: seq<Item>, es: seq<TarArchive.Found>, q: Path)
    requires xs != [] && |xs| <= |es| && Holds(m, xs[..|xs| - 1], es) && xs[|xs| - 1].path != []
    ensures var x, f := xs[|xs| - 1], es[|xs| - 1];
            HoldsAt(WithDirs(m, x.path[..|x.path| - 1])[x.path := File(f.offset, f.size)], q, Last(xs, q), es)
  {
    var p := xs[|xs| - 1].path;
    assert HoldsAt(m, q, Last(xs[..|xs| - 1], q), es);
    DirsAbove(m, p[..|p| - 1], q);
  }

  lemma OneMore(m: map<Path, Leaf>, xs: seq<Item>, es: seq<TarArchive.Found>)
    requires xs != [] && |xs| <= |es| && Holds(m, xs[..|xs| - 1], es)
    requires var x, f := xs[|xs| - 1], es[|xs| - 1]; Normal(x.path) && f.name == Join(x.path) && f.kind == ZERO
    ensures Holds(Step(m, es[|xs| - 1]), xs, es)
  {
    var x, f := xs[|xs| - 1], es[|xs| - 1];
    var n := Step(m, f);
    StepIs(m, f, x.path);
    StepClosed(m, x.path, File(f.offset, f.size));
    DirsAbove(m, x.path[..|x.path| - 1], []);
    forall q ensures HoldsAt(n, q, Last(xs, q), es) {
      StepHolds(m, xs, es, q);
    }
  }

  ghost predicate Matching(xs: seq<Item>, es: seq<TarArchive.Found>) {
    |xs| == |es| && forall i :: 0 <= i < |xs| ==> Normal(xs[i].path) && es[i].name == Join(xs[i].path) && es[i].kind == ZERO
  }

  lemma {:induction false} LoadHolds(xs: seq<Item>, es: seq<TarArchive.Found>, n: nat)
    requires Matching(xs, es) && n <= |xs|
    ensures Holds(After(ROOT, es[..n]), xs[..n], es)
  {
    if n == 0 {
      assert ROOT.Keys == {[]};
    } else {
      LoadHolds(xs, es, n - 1);
      assert xs[..n][..n - 1] == xs[..n - 1] && es[..n][..n - 1] == es[..n - 1];
      OneMore(After(ROOT, es[..n - 1]), xs[..n], es);
    }
  }

  // ---- What can be reached ----

  /** Following `q` from the root, through directories only. */
  ghost predicate Reachable(m: map<Path, Leaf>, q: Path) {
    q in m && forall k :: 0 <= k < |q| ==> q[..k] in m && m[q[..k]] == Dir
  }

  /** `q` is the path of some file. */
  predicate Listed(xs: seq<Item>, q: Path) {
    Last(xs, q).Some?
  }

  /** No file stands in the way to `q`. */
  ghost predicate Clear(xs: seq<Item>, q: Path) {
    forall k :: 0 < k < |q| ==> !Listed(xs, q[..k])
  }

  /** A file is found under a path exactly when it was packed under it and no file stands in the way. */
  lemma FoundIff(m: map<Path, Leaf>, xs: seq<Item>, es: seq<TarArchive.Found>, q: Path)
    requires |xs| <= |es| && Holds(m, xs, es)
    ensures Reachable(m, q) && m[q].File? <==> Listed(xs, q) && Clear(xs, q)
  {
    assert HoldsAt(m, q, Last(xs, q), es);
    forall k | 0 <= k <= |q| ensures HoldsAt(m, q[..k], Last(xs, q[..k]), es) {
    }
    assert HoldsAt(m, [], Last(xs, []), es);
    if Listed(xs, q) && Clear(xs, q) {
      forall k | 0 <= k < |q| ensures q[..k] in m && m[q[..k]] == Dir {
        assert HoldsAt(m, q[..k], Last(xs, q[..k]), es);
        assert k == 0 ==> q[..k] == [];
      }
    }
    if Reachable(m, q) && m[q].File? {
      forall k | 0 < k < |q| ensures !Listed(xs, q[..k]) {
        assert HoldsAt(m, q[..k], Last(xs, q[..k]), es);
      }
    }
  }

  predicate Stored(tar: seq<byte>, leaf: Leaf, data: seq<byte>) {
    leaf.File? && leaf.offset + leaf.length <= |tar| && tar[leaf.offset..leaf.offset + leaf.length] == data
  }

  lemma AllMatch(tar: seq<byte>, xs: seq<Item>, es: seq<TarArchive.Found>)
    requires |xs| == |es| && forall i :: 0 <= i < |xs| ==> Packable(xs[i])
    requires forall i :: 0 <= i < |xs| ==> TarArchive.Locates(tar, es[i], FilesOf(xs)[i])
    ensures Matching(xs, es)
  {
    forall i | 0 <= i < |xs| ensures es[i].name == Join(xs[i].path) && es[i].kind == ZERO {
      assert TarArchive.Locates(tar, es[i], FilesOf(xs)[i]);
    }
  }

  /** `q` leads to a file of the loaded archive exactly when it should, and to the right bytes. */
  ghost predicate Faithful(tar: seq<byte>, m: map<Path, Leaf>, xs: seq<Item>, q: Path) {
    && (Reachable(m, q) && m[q].File? <==> Listed(xs, q) && Clear(xs, q))
    && (Reachable(m, q) && m[q].File? ==> Listed(xs, q) && Stored(tar, m[q], xs[Last(xs, q).value].data))
  }

  lemma LoadedContents(tar: seq<byte>, xs: seq<Item>, es: seq<TarArchive.Found>, q: Path)
    requires Matching(xs, es) && forall i :: 0 <= i < |xs| ==> TarArchive.Locates(tar, es[i], FileOf(xs[i]))
    ensures Faithful(tar, After(ROOT, es), xs, q)
  {
    LoadHolds(xs, es, |xs|);
    assert es[..|xs|] == es && xs[..|xs|] == xs;
    FoundIff(After(ROOT, es), xs, es, q);
    assert HoldsAt(After(ROOT, es), q, Last(xs, q), es);
  }

  lemma PackedArchive(xs: seq<Item>, tar: seq<byte>) returns (es: seq<TarArchive.Found>)
    requires forall i :: 0 <= i < |xs| ==> Packable(xs[i])
    requires tar == TarArchive.Archive(TarArchive.HeaderOf, FilesOf(xs))
    ensures TarArchive.Scan(ReadHead, tar, 0) == Some(es) && Matching(xs, es)
    ensures forall i :: 0 <= i < |xs| ==> TarArchive.Locates(tar, es[i], FileOf(xs[i]))
  {
    var fs := FilesOf(xs);
    forall i | 0 <= i < |fs| ensures TarArchive.Sound(fs[i]) {
      NormalSurvives(xs[i].path);
    }
    TarArchive.ArchiveReadsBack(fs);
    es := TarArchive.Expected(fs, 0);
    AllMatch(tar, xs, es);
  }

  /**
   * For every list of files with normal paths: the archive is accepted, and a path leads to a file exactly when
   * it was packed and no other packed path is a proper part of it; what is read there is what was packed last.
   */
  lemma ArchiveContents(xs: seq<Item>, tar: seq<byte>, q: Path)
    requires forall i :: 0 <= i < |xs| ==> Packable(xs[i])
    requires tar == TarArchive.Archive(TarArchive.HeaderOf, FilesOf(xs))
    ensures var es := TarArchive.Scan(ReadHead, tar, 0);
            es.Some? && Faithful(tar, After(ROOT, es.value), xs, q)
  {
    var es := PackedArchive(xs, tar);
    LoadedContents(tar, xs, es, q);
  }
}
