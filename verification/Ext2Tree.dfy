/** Index blocks as trees: what a pointer leads to, which blocks it goes through, and what a write changes. */
module Ext2Tree {

  /** Blocks as arrays of block numbers, `p` to a block. */
  type Disk = seq<seq<int>>

  ghost predicate Formatted(d: Disk, p: nat) {
    forall b :: 0 <= b < |d| ==> |d[b]| == p
  }

  /** Follow `path` from `root`; a zero pointer on the way means nothing is mapped. */
  ghost function Lookup(d: Disk, root: int, path: seq<int>): int
    decreases |path|
  {
    if path == [] then root
    else if root <= 0 || root >= |d| || path[0] < 0 || path[0] >= |d[root]| then 0
    else Lookup(d, d[root][path[0]], path[1..])
  }

  /** The index blocks of a tree of `n` levels. */
  ghost function Nodes(d: Disk, root: int, n: nat): set<int>
    decreases n, 1
  {
    if n == 0 || root <= 0 || root >= |d| then {}
    else {root} + set i, b | 0 <= i < |d[root]| && b in Below(d, root, n, i) :: b
  }

  /** Those under child `i`. */
  ghost function Below(d: Disk, root: int, n: nat, i: int): set<int>
    requires n > 0 && 0 <= root < |d| && 0 <= i < |d[root]|
    decreases n, 0
  {
    Nodes(d, d[root][i], n - 1)
  }

  /** `e` agrees with `d` on the blocks `s`. */
  ghost predicate Same(d: Disk, e: Disk, s: set<int>) {
    |e| == |d| && forall b :: b in s ==> 0 <= b < |d| && e[b] == d[b]
  }

  /** Child `i` of an index block, as a tree of its own. */
  ghost predicate GoodChild(d: Disk, root: int, n: nat, i: nat)
    requires 0 <= root < |d| && n > 0 && i < |d[root]|
    decreases n, 0
  {
    Tree(d, d[root][i], n - 1) && root !in Nodes(d, d[root][i], n - 1)
  }

  ghost predicate Apart(d: Disk, x: int, y: int, n: nat) {
    Nodes(d, x, n) !! Nodes(d, y, n)
  }

  /** No index block is reached twice. */
  ghost predicate Tree(d: Disk, root: int, n: nat)
    decreases n, 1
  {
    n == 0 || root == 0 ||
    (&& 0 < root < |d|
     && (forall i {:trigger GoodChild(d, root, n, i)} :: 0 <= i < |d[root]| ==> GoodChild(d, root, n, i))
     && (forall i, j :: 0 <= i < j < |d[root]| ==> Apart(d, d[root][i], d[root][j], n - 1)))
  }

  lemma ChildNodes(d: Disk, root: int, n: nat, i: nat)
    requires n > 0 && 0 < root < |d| && i < |d[root]|
    ensures Nodes(d, d[root][i], n - 1) <= Nodes(d, root, n) && root in Nodes(d, root, n)
  {
    assert Below(d, root, n, i) == Nodes(d, d[root][i], n - 1);
  }

  lemma NodeBelow(d: Disk, root: int, n: nat, b: int) returns (i: nat)
    requires b in Nodes(d, root, n) && b != root
    ensures n > 0 && 0 < root < |d| && i < |d[root]| && b in Below(d, root, n, i)
  {
    var j, c :| 0 <= j < |d[root]| && c in Below(d, root, n, j) && c == b;
    i := j;
  }

  /** A tree depends on its own index blocks only. */
  lemma {:induction false} Frame(d: Disk, e: Disk, root: int, n: nat)
    requires Tree(d, root, n) && Same(d, e, Nodes(d, root, n))
    ensures Tree(e, root, n) && Nodes(e, root, n) == Nodes(d, root, n)
    decreases n
  {
    if n > 0 && root != 0 {
      assert root in Nodes(d, root, n);
      forall i | 0 <= i < |d[root]| ensures GoodChild(e, root, n, i) && Nodes(e, d[root][i], n - 1) == Nodes(d, d[root][i], n - 1) {
        assert GoodChild(d, root, n, i);
        ChildNodes(d, root, n, i);
        Frame(d, e, d[root][i], n - 1);
      }
      assert forall i :: 0 <= i < |d[root]| ==> Below(e, root, n, i) == Below(d, root, n, i);
      forall i, j | 0 <= i < j < |d[root]| ensures Apart(e, e[root][i], e[root][j], n - 1) {
        assert Apart(d, d[root][i], d[root][j], n - 1);
      }
    }
  }

  lemma {:induction false} FrameLookup(d: Disk, e: Disk, root: int, path: seq<int>)
    requires Same(d, e, Nodes(d, root, |path|))
    ensures Lookup(e, root, path) == Lookup(d, root, path)
    decreases |path|
  {
    if path != [] && 0 < root < |d| && 0 <= path[0] < |d[root]| {
      ChildNodes(d, root, |path|, path[0]);
      FrameLookup(d, e, d[root][path[0]], path[1..]);
    }
  }

  // ---- Writing one pointer of an index block ----

  ghost function Poke(d: Disk, b: int, i: nat, v: int): (e: Disk)
    requires 0 <= b < |d| && i < |d[b]|
    ensures |e| == |d| && |e[b]| == |d[b]|
  {
    d[b := d[b][i := v]]
  }

  /** `v` may become child `i`: a tree that shares nothing with the block itself or its other children. */
  ghost predicate Graftable(d: Disk, root: int, n: nat, i: nat, v: int)
    requires 0 <= root < |d| && n > 0
  {
    && Tree(d, v, n - 1) && root !in Nodes(d, v, n - 1)
    && forall j :: 0 <= j < |d[root]| && j != i ==> Apart(d, d[root][j], v, n - 1)
  }

  lemma PokeChild(d: Disk, root: int, n: nat, i: nat, v: int, x: int)
    requires n > 0 && 0 < root < |d| && i < |d[root]| && Tree(d, x, n - 1) && root !in Nodes(d, x, n - 1)
    ensures Tree(Poke(d, root, i, v), x, n - 1) && Nodes(Poke(d, root, i, v), x, n - 1) == Nodes(d, x, n - 1)
  {
    InRange(d, x, n - 1);
    Frame(d, Poke(d, root, i, v), x, n - 1);
  }

  ghost predicate OnDisk(d: Disk, s: set<int>) {
    forall b :: b in s ==> 0 < b < |d|
  }

  lemma {:induction false} InRange(d: Disk, root: int, n: nat)
    ensures OnDisk(d, Nodes(d, root, n))
    decreases n
  {
    if n > 0 && 0 < root < |d| {
      forall i | 0 <= i < |d[root]| ensures OnDisk(d, Below(d, root, n, i)) {
        InRange(d, d[root][i], n - 1);
      }
    }
  }

  lemma PokeTree(d: Disk, root: int, n: nat, i: nat, v: int)
    requires n > 0 && root != 0 && Tree(d, root, n) && i < |d[root]| && Graftable(d, root, n, i, v)
    ensures Tree(Poke(d, root, i, v), root, n)
    ensures Nodes(Poke(d, root, i, v), root, n) <= Nodes(d, root, n) + Nodes(d, v, n - 1)
  {
    var e := Poke(d, root, i, v);
    forall j | 0 <= j < |e[root]|
      ensures GoodChild(e, root, n, j) && Nodes(e, e[root][j], n - 1) == Nodes(d, e[root][j], n - 1)
    {
      assert GoodChild(d, root, n, j);
      PokeChild(d, root, n, i, v, e[root][j]);
    }
    forall j, k | 0 <= j < k < |e[root]| ensures Apart(e, e[root][j], e[root][k], n - 1) {
      assert Apart(d, d[root][j], d[root][k], n - 1);
    }
    forall b | b in Nodes(e, root, n) ensures b in Nodes(d, root, n) + Nodes(d, v, n - 1) {
      if b != root {
        var j := NodeBelow(e, root, n, b);
        ChildNodes(d, root, n, j);
      }
    }
  }

  /** Only lookups through the pointer written change. */
  lemma PokeLookup(d: Disk, root: int, i: nat, v: int, path: seq<int>)
    requires path != [] && 0 < root < |d| && Tree(d, root, |path|) && i < |d[root]|
    requires Graftable(d, root, |path|, i, v)
    ensures Lookup(Poke(d, root, i, v), root, path)
            == if path[0] == i then Lookup(d, v, path[1..]) else Lookup(d, root, path)
  {
    var e, n := Poke(d, root, i, v), |path|;
    if 0 <= path[0] < |d[root]| {
      assert GoodChild(d, root, n, path[0]);
      var x := e[root][path[0]];
      InRange(d, x, n - 1);
      FrameLookup(d, e, x, path[1..]);
    }
  }

  // ---- Writing inside one child ----

  /** The disk changed only in child `i`, which still is a tree of blocks it had before. */
  ghost predicate ChildChanged(d: Disk, e: Disk, root: int, n: nat, i: nat)
    requires 0 <= root < |d| && n > 0 && i < |d[root]|
  {
    var c := d[root][i];
    && |e| == |d| && Tree(e, c, n - 1) && Nodes(e, c, n - 1) <= Nodes(d, c, n - 1)
    && forall b :: 0 <= b < |d| && b !in Nodes(d, c, n - 1) ==> e[b] == d[b]
  }

  lemma OtherChild(d: Disk, e: Disk, root: int, n: nat, i: nat, j: nat)
    requires n > 0 && root != 0 && Tree(d, root, n) && i < |d[root]| && j < |d[root]| && i != j && ChildChanged(d, e, root, n, i)
    ensures Same(d, e, Nodes(d, d[root][j], n - 1))
    ensures e[root] == d[root]
  {
    assert GoodChild(d, root, n, i);
    InRange(d, d[root][j], n - 1);
    if i < j {
      assert Apart(d, d[root][i], d[root][j], n - 1);
    } else {
      assert Apart(d, d[root][j], d[root][i], n - 1);
    }
  }

  lemma ChildTree(d: Disk, e: Disk, root: int, n: nat, i: nat, j: nat)
    requires n > 0 && root != 0 && Tree(d, root, n) && i < |d[root]| && j < |d[root]| && ChildChanged(d, e, root, n, i)
    ensures e[root] == d[root] && GoodChild(e, root, n, j) && Nodes(e, d[root][j], n - 1) <= Nodes(d, d[root][j], n - 1)
  {
    assert GoodChild(d, root, n, i);
    assert GoodChild(d, root, n, j);
    if j != i {
      OtherChild(d, e, root, n, i, j);
      Frame(d, e, d[root][j], n - 1);
    }
  }

  lemma ChildKeepsTree(d: Disk, e: Disk, root: int, n: nat, i: nat)
    requires n > 0 && root != 0 && Tree(d, root, n) && i < |d[root]| && ChildChanged(d, e, root, n, i)
    ensures Tree(e, root, n) && Nodes(e, root, n) <= Nodes(d, root, n)
  {
    ChildTree(d, e, root, n, i, i);
    forall j | 0 <= j < |e[root]|
      ensures GoodChild(e, root, n, j) && Nodes(e, d[root][j], n - 1) <= Nodes(d, d[root][j], n - 1)
    {
      ChildTree(d, e, root, n, i, j);
    }
    forall j, k | 0 <= j < k < |e[root]| ensures Apart(e, e[root][j], e[root][k], n - 1) {
      assert Apart(d, d[root][j], d[root][k], n - 1);
    }
    forall b | b in Nodes(e, root, n) ensures b in Nodes(d, root, n) {
      if b != root {
        var j := NodeBelow(e, root, n, b);
        ChildNodes(d, root, n, j);
      }
    }
  }

  lemma ChildLookup(d: Disk, e: Disk, root: int, i: nat, path: seq<int>)
    requires path != [] && root != 0 && Tree(d, root, |path|) && i < |d[root]| && ChildChanged(d, e, root, |path|, i)
    ensures Lookup(e, root, path) == if path[0] == i then Lookup(e, d[root][i], path[1..]) else Lookup(d, root, path)
  {
    var n := |path|;
    ChildTree(d, e, root, n, i, i);
    if 0 <= path[0] < |d[root]| && path[0] != i {
      OtherChild(d, e, root, n, i, path[0]);
      FrameLookup(d, e, d[root][path[0]], path[1..]);
    }
  }

  // ---- A fresh index block ----

  /** A zeroed block is a tree that maps nothing. */
  lemma FreshTree(d: Disk, b: int, n: nat)
    requires 0 < b < |d| && forall i :: 0 <= i < |d[b]| ==> d[b][i] == 0
    ensures Tree(d, b, n) && Nodes(d, b, n) <= {b}
  {
    if n > 0 {
      forall i | 0 <= i < |d[b]| ensures GoodChild(d, b, n, i) && Below(d, b, n, i) == {} {
      }
      forall i, j | 0 <= i < j < |d[b]| ensures Apart(d, d[b][i], d[b][j], n - 1) {
        assert Below(d, b, n, i) == {};
      }
    }
  }

  lemma FreshLookup(d: Disk, b: int, path: seq<int>)
    requires 0 < b < |d| && path != [] && forall i :: 0 <= i < |d[b]| ==> d[b][i] == 0
    ensures Lookup(d, b, path) == 0
  {
    if 0 <= path[0] < |d[b]| {
      NothingAtZero(d, path[1..]);
    }
  }

  lemma NothingAtZero(d: Disk, path: seq<int>)
    ensures Lookup(d, 0, path) == 0
  {
  }
}
