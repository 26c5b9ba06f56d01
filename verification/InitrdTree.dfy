/** The entry table of src/drivers/initrd.c: a tree kept by first-child and next-sibling indices. */
module InitrdTree {
  import opened Words
  import opened InitrdPaths

  const NONE := -1

  datatype Entry = Entry(name: Name, isFile: bool, offset: nat, length: nat, parent: int, child: int, sibling: int)

  /** What stands at a path. */
  datatype Leaf = Dir | File(offset: nat, length: nat)

  function Meaning(e: Entry): Leaf {
    if e.isFile then File(e.offset, e.length) else Dir
  }

  // ---- The table ----

  /** Children come after their parents, and each new one goes to the front of its list. */
  ghost predicate Formed(es: seq<Entry>) {
    && |es| > 0 && es[0].parent == NONE
    && (forall i :: 0 <= i < |es| ==> es[i].child == NONE || i < es[i].child < |es|)
    && (forall i :: 0 <= i < |es| ==> es[i].sibling == NONE || 0 < es[i].sibling < i)
    && (forall i :: 0 < i < |es| ==> 0 <= es[i].parent < i)
  }

  /** `c` is met on the sibling list that starts at `from`. */
  ghost predicate OnChain(es: seq<Entry>, from: int, c: int)
    requires Formed(es) && NONE <= from < |es|
    decreases from
  {
    from >= 0 && (from == c || OnChain(es, es[from].sibling, c))
  }

  /** The list of `p` holds exactly the entries whose parent is `p`. */
  ghost predicate Listed(es: seq<Entry>) {
    Formed(es)
    && forall p, c {:trigger OnChain(es, es[p].child, c)} :: 0 <= p < |es| && 0 < c < |es| ==>
         (OnChain(es, es[p].child, c) <==> es[c].parent == p)
  }

  ghost predicate Named(es: seq<Entry>) {
    forall i, j :: 0 < i < j < |es| && es[i].parent == es[j].parent ==> es[i].name != es[j].name
  }

  ghost predicate Tree(es: seq<Entry>) {
    Listed(es) && Named(es)
  }

  // ---- Paths ----

  ghost function PathOf(es: seq<Entry>, i: int): Path
    requires Formed(es) && 0 <= i < |es|
    decreases i
  {
    if i == 0 then [] else PathOf(es, es[i].parent) + [es[i].name]
  }

  lemma {:induction false} PathInjective(es: seq<Entry>, i: int, j: int)
    requires Tree(es) && 0 <= i < |es| && 0 <= j < |es| && PathOf(es, i) == PathOf(es, j)
    ensures i == j
    decreases i + j
  {
    if i > 0 && j > 0 {
      var p, q := PathOf(es, i), PathOf(es, j);
      assert p[..|p| - 1] == PathOf(es, es[i].parent) && q[..|q| - 1] == PathOf(es, es[j].parent);
      PathInjective(es, es[i].parent, es[j].parent);
      assert p[|p| - 1] == es[i].name && q[|q| - 1] == es[j].name;
    }
  }

  lemma ChildPath(es: seq<Entry>, p: int, i: int, name: Name)
    requires Tree(es) && 0 <= p < |es| && 0 <= i < |es| && PathOf(es, i) == PathOf(es, p) + [name]
    ensures i > 0 && es[i].parent == p && es[i].name == name
  {
    var q := PathOf(es, i);
    assert q[..|q| - 1] == PathOf(es, p) && q[|q| - 1] == name;
    if i > 0 {
      assert q[..|q| - 1] == PathOf(es, es[i].parent) && q[|q| - 1] == es[i].name;
      PathInjective(es, es[i].parent, p);
    }
  }

  /** Entry `i` is in the map, as what it is. */
  ghost predicate Entered(es: seq<Entry>, m: map<Path, Leaf>, i: int)
    requires Formed(es) && 0 <= i < |es|
  {
    PathOf(es, i) in m && m[PathOf(es, i)] == Meaning(es[i])
  }

  ghost predicate Exists(es: seq<Entry>, q: Path)
    requires Formed(es)
  {
    exists i :: 0 <= i < |es| && PathOf(es, i) == q
  }

  /** The table stands for the map `m` from paths to files and directories. */
  ghost predicate Represents(es: seq<Entry>, m: map<Path, Leaf>) {
    && Tree(es)
    && (forall i {:trigger Entered(es, m, i)} :: 0 <= i < |es| ==> Entered(es, m, i))
    && forall q :: q in m ==> Exists(es, q)
  }

  // ---- A new child ----

  function Added(es: seq<Entry>, p: int, name: Name, isFile: bool): seq<Entry>
    requires 0 <= p < |es|
  {
    es[p := es[p].(child := |es|)] + [Entry(name, isFile, 0, 0, p, NONE, es[p].child)]
  }

  lemma AddedForms(es: seq<Entry>, p: int, name: Name, isFile: bool)
    requires Formed(es) && 0 <= p < |es|
    ensures Formed(Added(es, p, name, isFile))
  {
  }

  lemma {:induction false} AddedChain(es: seq<Entry>, p: int, name: Name, isFile: bool, from: int, c: int)
    requires Formed(es) && 0 <= p < |es| && NONE <= from < |es| && Formed(Added(es, p, name, isFile))
    ensures OnChain(Added(es, p, name, isFile), from, c) == OnChain(es, from, c)
    decreases from
  {
    if from >= 0 {
      AddedChain(es, p, name, isFile, es[from].sibling, c);
    }
  }

  lemma {:induction false} ChainInside(es: seq<Entry>, from: int, c: int)
    requires Formed(es) && NONE <= from < |es| && OnChain(es, from, c)
    ensures 0 <= c <= from
    decreases from
  {
    if from != c {
      ChainInside(es, es[from].sibling, c);
    }
  }

  lemma AddedListed(es: seq<Entry>, p: int, name: Name, isFile: bool, q: int, c: int)
    requires Listed(es) && 0 <= p < |es| && Formed(Added(es, p, name, isFile))
    requires 0 <= q <= |es| && 0 < c <= |es|
    ensures var fs := Added(es, p, name, isFile); OnChain(fs, fs[q].child, c) <==> fs[c].parent == q
  {
    var fs := Added(es, p, name, isFile);
    if q < |es| {
      AddedChain(es, p, name, isFile, es[q].child, c);
      if c < |es| {
        assert OnChain(es, es[q].child, c) <==> es[c].parent == q;
      } else if OnChain(es, es[q].child, c) {
        ChainInside(es, es[q].child, c);
      }
    }
  }

  lemma AddedTree(es: seq<Entry>, p: int, name: Name, isFile: bool)
    requires Tree(es) && 0 <= p < |es|
    requires forall i :: 0 < i < |es| && es[i].parent == p ==> es[i].name != name
    ensures Tree(Added(es, p, name, isFile))
  {
    var fs := Added(es, p, name, isFile);
    AddedForms(es, p, name, isFile);
    forall q, c | 0 <= q < |fs| && 0 < c < |fs| ensures OnChain(fs, fs[q].child, c) <==> fs[c].parent == q {
      AddedListed(es, p, name, isFile, q, c);
    }
  }

  /** Names and parents decide the paths. */
  lemma {:induction false} SamePath(es: seq<Entry>, fs: seq<Entry>, i: int)
    requires Formed(es) && Formed(fs) && 0 <= i < |es| <= |fs|
    requires forall k :: 0 <= k < |es| ==> fs[k].name == es[k].name && fs[k].parent == es[k].parent
    ensures PathOf(fs, i) == PathOf(es, i)
    decreases i
  {
    if i > 0 {
      SamePath(es, fs, es[i].parent);
    }
  }

  lemma AddedEnters(es: seq<Entry>, m: map<Path, Leaf>, fs: seq<Entry>, p: int, name: Name, isFile: bool, i: int)
    requires Tree(es) && 0 <= p < |es| && fs == Added(es, p, name, isFile) && Formed(fs) && 0 <= i < |fs|
    requires forall i :: 0 < i < |es| && es[i].parent == p ==> es[i].name != name
    requires i < |es| ==> Entered(es, m, i)
    requires PathOf(fs, |es|) == PathOf(es, p) + [name]
    ensures Entered(fs, m[PathOf(es, p) + [name] := if isFile then File(0, 0) else Dir], i)
  {
    if i < |es| {
      SamePath(es, fs, i);
      if PathOf(es, i) == PathOf(es, p) + [name] {
        ChildPath(es, p, i, name);
      }
    }
  }

  lemma StillExists(es: seq<Entry>, fs: seq<Entry>, q: Path)
    requires Formed(es) && Formed(fs) && |es| <= |fs| && Exists(es, q)
    requires forall k :: 0 <= k < |es| ==> fs[k].name == es[k].name && fs[k].parent == es[k].parent
    ensures Exists(fs, q)
  {
    var i :| 0 <= i < |es| && PathOf(es, i) == q;
    SamePath(es, fs, i);
    assert PathOf(fs, i) == q;
  }

  lemma AddedRepresents(es: seq<Entry>, m: map<Path, Leaf>, p: int, name: Name, isFile: bool)
    requires Represents(es, m) && 0 <= p < |es|
    requires forall i :: 0 < i < |es| && es[i].parent == p ==> es[i].name != name
    ensures var fs := Added(es, p, name, isFile);
            Represents(fs, m[PathOf(es, p) + [name] := if isFile then File(0, 0) else Dir])
            && PathOf(fs, |es|) == PathOf(es, p) + [name]
  {
    var fs, q := Added(es, p, name, isFile), PathOf(es, p) + [name];
    var n := m[q := if isFile then File(0, 0) else Dir];
    AddedTree(es, p, name, isFile);
    SamePath(es, fs, p);
    assert PathOf(fs, |es|) == q;
    forall i | 0 <= i < |fs| ensures Entered(fs, n, i) {
      assert i < |es| ==> Entered(es, m, i);
      AddedEnters(es, m, fs, p, name, isFile, i);
    }
    forall r | r in n ensures Exists(fs, r) {
      if r != q {
        StillExists(es, fs, r);
      }
    }
  }

  // ---- An entry made a file ----

  function Filed(es: seq<Entry>, i: int, offset: nat, length: nat): seq<Entry>
    requires 0 <= i < |es|
  {
    es[i := es[i].(isFile := true, offset := offset, length := length)]
  }

  lemma {:induction false} FiledChain(es: seq<Entry>, i: int, offset: nat, length: nat, from: int, c: int)
    requires Formed(es) && 0 <= i < |es| && NONE <= from < |es| && Formed(Filed(es, i, offset, length))
    ensures OnChain(Filed(es, i, offset, length), from, c) == OnChain(es, from, c)
    decreases from
  {
    if from >= 0 {
      FiledChain(es, i, offset, length, es[from].sibling, c);
    }
  }

  lemma FiledTree(es: seq<Entry>, i: int, offset: nat, length: nat)
    requires Tree(es) && 0 <= i < |es|
    ensures Tree(Filed(es, i, offset, length))
  {
    var fs := Filed(es, i, offset, length);
    assert Formed(fs);
    forall q, c | 0 <= q < |fs| && 0 < c < |fs| ensures OnChain(fs, fs[q].child, c) <==> fs[c].parent == q {
      FiledChain(es, i, offset, length, es[q].child, c);
      assert OnChain(es, es[q].child, c) <==> es[c].parent == q;
    }
  }

  lemma FiledEnters(es: seq<Entry>, m: map<Path, Leaf>, fs: seq<Entry>, i: int, offset: nat, length: nat, k: int)
    requires Tree(es) && 0 <= i < |es| && fs == Filed(es, i, offset, length) && Formed(fs) && 0 <= k < |es|
    requires Entered(es, m, k)
    ensures Entered(fs, m[PathOf(es, i) := File(offset, length)], k)
  {
    SamePath(es, fs, k);
    if PathOf(es, k) == PathOf(es, i) {
      PathInjective(es, k, i);
    }
  }

  lemma FiledRepresents(es: seq<Entry>, m: map<Path, Leaf>, i: int, offset: nat, length: nat)
    requires Represents(es, m) && 0 <= i < |es|
    ensures Represents(Filed(es, i, offset, length), m[PathOf(es, i) := File(offset, length)])
  {
    var fs := Filed(es, i, offset, length);
    var n := m[PathOf(es, i) := File(offset, length)];
    FiledTree(es, i, offset, length);
    forall k | 0 <= k < |fs| ensures Entered(fs, n, k) {
      assert Entered(es, m, k);
      FiledEnters(es, m, fs, i, offset, length, k);
    }
    forall r | r in n ensures Exists(fs, r) {
      assert Entered(es, m, i);
      StillExists(es, fs, r);
    }
  }
}
