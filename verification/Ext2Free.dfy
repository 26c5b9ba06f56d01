/** Giving back all blocks of an inode, `ext2_free_inode_blocks` of src/kernel/ext2.c. */
module Ext2Free {
  import Bits
  import opened Seqs
  import opened Ext2Tree
  import opened Ext2Blocks
  import opened Ext2Map
  import opened Ext2Inode

  ghost function ToSet(s: seq<int>): set<int> {
    set x | x in s
  }

  lemma DistinctParts(a: seq<int>, b: seq<int>)
    requires Distinct(a + b)
    ensures Distinct(a) && Distinct(b) && ToSet(a) !! ToSet(b) && ToSet(a + b) == ToSet(a) + ToSet(b)
  {
    var s := a + b;
    forall i, j | 0 <= i < |a| && 0 <= j < |b| ensures a[i] != b[j] {
      assert s[i] != s[|a| + j];
    }
    forall i, j | 0 <= i < j < |b| ensures b[i] != b[j] {
      assert s[|a| + i] != s[|a| + j];
    }
    forall i, j | 0 <= i < j < |a| ensures a[i] != a[j] {
      assert s[i] != s[j];
    }
  }

  ghost function Pointer(b: int): seq<int> {
    if b == 0 then [] else [b]
  }

  /** What an index block of `n` levels gives back: everything below it, then itself. */
  ghost function Given(d: Disk, root: int, n: nat): seq<int>
    decreases n, 1, 0
  {
    if n == 0 then Pointer(root)
    else if root <= 0 || root >= |d| then []
    else GivenRow(d, d[root], n - 1) + [root]
  }

  ghost function GivenRow(d: Disk, row: seq<int>, n: nat): seq<int>
    decreases n, 2, |row|
  {
    if row == [] then [] else GivenRow(d, row[..|row| - 1], n) + Given(d, row[|row| - 1], n)
  }

  /** All that `ext2_free_inode_blocks` gives back; of the triple tree only its top. */
  ghost function GivenAll(d: Disk, ib: seq<int>): seq<int>
    requires |ib| == SLOTS
  {
    GivenRow(d, ib[..NDIR], 0) + Given(d, ib[IND], 1) + Given(d, ib[DIND], 2) + Pointer(ib[TIND])
  }

  lemma RowStep(d: Disk, row: seq<int>, i: nat, n: nat)
    requires i < |row|
    ensures GivenRow(d, row[..i + 1], n) == GivenRow(d, row[..i], n) + Given(d, row[i], n)
  {
    var r := row[..i + 1];
    assert r[..|r| - 1] == row[..i] && r[|r| - 1] == row[i];
  }

  lemma {:induction false} RowPrefix(d: Disk, row: seq<int>, i: nat, n: nat) returns (rest: seq<int>)
    requires i <= |row|
    ensures GivenRow(d, row, n) == GivenRow(d, row[..i], n) + rest
    decreases |row| - i
  {
    if i == |row| {
      assert row[..i] == row;
      rest := [];
    } else {
      rest := RowPrefix(d, row, i + 1, n);
      RowStep(d, row, i, n);
      Assoc(GivenRow(d, row[..i], n), Given(d, row[i], n), rest);
      rest := Given(d, row[i], n) + rest;
    }
  }

  /** `list` can be given back: no block twice, every block in use. */
  ghost predicate Returnable(list: seq<int>, used: set<int>) {
    Distinct(list) && ToSet(list) <= used && forall i :: 0 <= i < |list| ==> list[i] > 0
  }

  lemma ReturnParts(a: seq<int>, b: seq<int>, used: set<int>)
    requires Returnable(a + b, used)
    ensures Returnable(a, used) && Returnable(b, used - ToSet(a))
    ensures ToSet(a + b) == ToSet(a) + ToSet(b)
  {
    DistinctParts(a, b);
    forall i | 0 <= i < |a| ensures a[i] > 0 {
      assert (a + b)[i] == a[i];
    }
    forall i | 0 <= i < |b| ensures b[i] > 0 {
      assert (a + b)[|a| + i] == b[i];
    }
  }

  lemma ReturnNext(d: Disk, row: seq<int>, i: nat, n: nat, used: set<int>)
    requires i < |row| && Returnable(GivenRow(d, row, n), used)
    ensures Returnable(Given(d, row[i], n), used - ToSet(GivenRow(d, row[..i], n)))
    ensures ToSet(GivenRow(d, row[..i + 1], n)) == ToSet(GivenRow(d, row[..i], n)) + ToSet(Given(d, row[i], n))
  {
    var rest := RowPrefix(d, row, i + 1, n);
    RowStep(d, row, i, n);
    ReturnParts(GivenRow(d, row[..i + 1], n), rest, used);
    ReturnParts(GivenRow(d, row[..i], n), Given(d, row[i], n), used);
  }

  /** The loop over a row of data pointers. */
  method FreeRow(alloc: Allocator, row: seq<int>, ghost d: Disk)
    requires alloc.Valid() && Returnable(GivenRow(d, row, 0), alloc.View())
    modifies alloc.maps, alloc.free
    ensures alloc.Valid() && alloc.View() == old(alloc.View()) - ToSet(GivenRow(d, row, 0))
  {
    ghost var used := alloc.View();
    for i := 0 to |row|
      invariant alloc.Valid() && alloc.View() == used - ToSet(GivenRow(d, row[..i], 0))
    {
      ReturnNext(d, row, i, 0, used);
      if row[i] != 0 {
        assert Given(d, row[i], 0) == [row[i]];
        assert row[i] in ToSet(Given(d, row[i], 0));
        alloc.FreeBlock(row[i]);
      }
    }
    assert row[..|row|] == row;
  }

  /** A single index block: its data blocks, then itself. */
  method FreeSingle(fs: Ext2, root: int)
    requires fs.alloc.Valid() && 0 < root < fs.disk.Length
    requires fs.disk as object != fs.alloc.maps
    requires Returnable(Given(fs.disk[..], root, 1), fs.alloc.View())
    modifies fs.alloc.maps, fs.alloc.free
    ensures fs.alloc.Valid() && fs.disk[..] == old(fs.disk[..])
    ensures fs.alloc.View() == old(fs.alloc.View()) - ToSet(Given(fs.disk[..], root, 1))
  {
    ghost var d, used := fs.disk[..], fs.alloc.View();
    var row := fs.disk[root];
    ReturnParts(GivenRow(d, row, 0), [root], used);
    FreeRow(fs.alloc, row, d);
    assert root in ToSet([root]);
    fs.alloc.FreeBlock(root);
  }

  /** The double index block: each of its index blocks with its data, then itself. */
  method FreeDouble(fs: Ext2, root: int)
    requires fs.alloc.Valid() && 0 < root < fs.disk.Length
    requires fs.disk as object != fs.alloc.maps
    requires forall i :: 0 <= i < |fs.disk[root]| && fs.disk[root][i] != 0 ==> 0 < fs.disk[root][i] < fs.disk.Length
    requires Returnable(Given(fs.disk[..], root, 2), fs.alloc.View())
    modifies fs.alloc.maps, fs.alloc.free
    ensures fs.alloc.Valid() && fs.disk[..] == old(fs.disk[..])
    ensures fs.alloc.View() == old(fs.alloc.View()) - ToSet(Given(fs.disk[..], root, 2))
  {
    ghost var d, used := fs.disk[..], fs.alloc.View();
    var l1 := fs.disk[root];
    ReturnParts(GivenRow(d, l1, 1), [root], used);
    for i := 0 to |l1|
      invariant fs.alloc.Valid() && fs.disk[..] == d
      invariant fs.alloc.View() == used - ToSet(GivenRow(d, l1[..i], 1))
    {
      ReturnNext(d, l1, i, 1, used);
      if l1[i] != 0 {
        FreeSingle(fs, l1[i]);
      } else {
        assert Given(d, l1[i], 1) == [];
      }
    }
    assert l1[..|l1|] == l1;
    assert root in ToSet([root]);
    fs.alloc.FreeBlock(root);
  }

  /** The four parts of the list, each to be returned after the ones before it. */
  lemma ReturnFour(a: seq<int>, b: seq<int>, c: seq<int>, e: seq<int>, used: set<int>)
    requires Returnable(a + b + c + e, used)
    ensures Returnable(a, used) && Returnable(b, used - ToSet(a)) && Returnable(c, used - ToSet(a) - ToSet(b))
    ensures Returnable(e, used - ToSet(a) - ToSet(b) - ToSet(c))
    ensures used - ToSet(a + b + c + e) == used - ToSet(a) - ToSet(b) - ToSet(c) - ToSet(e)
  {
    ReturnParts(a + b + c, e, used);
    ReturnParts(a + b, c, used);
    ReturnParts(a, b, used);
    assert used - (ToSet(a) + ToSet(b)) == used - ToSet(a) - ToSet(b);
    assert used - (ToSet(a) + ToSet(b) + ToSet(c)) == used - ToSet(a) - ToSet(b) - ToSet(c);
  }

  /** One of the two index trees of the inode, if there is one. */
  method FreeSlot(fs: Ext2, root: int, n: nat, ghost d: Disk, ghost used: set<int>)
    requires fs.alloc.Valid() && fs.disk[..] == d && fs.alloc.View() == used && fs.disk as object != fs.alloc.maps
    requires (n == 1 || n == 2) && Tree(d, root, n) && Returnable(Given(d, root, n), used)
    modifies fs.alloc.maps, fs.alloc.free
    ensures fs.alloc.Valid() && fs.disk[..] == d && fs.alloc.View() == used - ToSet(Given(d, root, n))
  {
    if root == 0 {
      return;
    }
    if n == 1 {
      FreeSingle(fs, root);
    } else {
      ChildrenOnDisk(d, root);
      FreeDouble(fs, root);
    }
  }

  lemma ChildrenOnDisk(d: Disk, root: int)
    requires Tree(d, root, 2) && 0 < root < |d|
    ensures forall i :: 0 <= i < |d[root]| && d[root][i] != 0 ==> 0 < d[root][i] < |d|
  {
    forall i | 0 <= i < |d[root]| && d[root][i] != 0 ensures 0 < d[root][i] < |d| {
      assert GoodChild(d, root, 2, i);
    }
  }

  method FreeTop(alloc: Allocator, b: int, ghost used: set<int>)
    requires alloc.Valid() && alloc.View() == used && Returnable(Pointer(b), used)
    modifies alloc.maps, alloc.free
    ensures alloc.Valid() && alloc.View() == used - ToSet(Pointer(b))
  {
    if b != 0 {
      assert b in ToSet(Pointer(b)) && Pointer(b)[0] > 0;
      alloc.FreeBlock(b);
    }
  }

  method FreeTrees(fs: Ext2, jb: seq<int>, ghost d: Disk, ghost used: set<int>)
    requires fs.alloc.Valid() && fs.disk[..] == d && fs.alloc.View() == used && fs.disk as object != fs.alloc.maps
    requires Sound(d, jb) && Returnable(GivenAll(d, jb), used)
    modifies fs.alloc.maps, fs.alloc.free
    ensures fs.alloc.Valid() && fs.disk[..] == d && fs.alloc.View() == used - ToSet(GivenAll(d, jb))
  {
    ghost var p1, p2, p3, p4 := GivenRow(d, jb[..NDIR], 0), Given(d, jb[IND], 1), Given(d, jb[DIND], 2), Pointer(jb[TIND]);
    ReturnFour(p1, p2, p3, p4, used);
    assert Tree(d, jb[IND], Levels(IND)) && Tree(d, jb[DIND], Levels(DIND));
    ghost var u1 := used - ToSet(p1);
    ghost var u2 := u1 - ToSet(p2);
    ghost var u3 := u2 - ToSet(p3);
    FreeRow(fs.alloc, jb[..NDIR], d);
    FreeSlot(fs, jb[IND], 1, d, u1);
    FreeSlot(fs, jb[DIND], 2, d, u2);
    FreeTop(fs.alloc, jb[TIND], u3);
  }

  /**
   * Every block the inode leads to below the triple range, index blocks included, is freed exactly once, and
   * of the triple tree only the top; no other block changes hands and no pointer is left.
   */
  method FreeInodeBlocks(fs: Ext2, ib: array<int>)
    requires fs.Ready(ib) && Returnable(GivenAll(fs.disk[..], ib[..]), fs.alloc.View())
    modifies ib, fs.alloc.maps, fs.alloc.free
    ensures fs.alloc.Valid() && fs.disk[..] == old(fs.disk[..])
    ensures fs.alloc.View() == old(fs.alloc.View()) - ToSet(GivenAll(fs.disk[..], old(ib[..])))
    ensures forall s :: 0 <= s < SLOTS ==> ib[s] == 0
  {
    FreeTrees(fs, ib[..], fs.disk[..], fs.alloc.View());
    ClearPointers(ib);
  }

  method ClearPointers(ib: array<int>)
    requires ib.Length == SLOTS
    modifies ib
    ensures forall s :: 0 <= s < SLOTS ==> ib[s] == 0
  {
    for i := 0 to SLOTS
      invariant forall s :: 0 <= s < i ==> ib[s] == 0
    {
      ib[i] := 0;
    }
  }

  // ---- What is given back is what can be reached ----

  lemma {:induction false} FromRow(d: Disk, row: seq<int>, n: nat, b: int) returns (i: nat)
    requires b in GivenRow(d, row, n)
    ensures i < |row| && b in Given(d, row[i], n)
    decreases |row|
  {
    var k := |row| - 1;
    if b in Given(d, row[k], n) {
      i := k;
    } else {
      i := FromRow(d, row[..k], n, b);
    }
  }

  lemma {:induction false} IntoRow(d: Disk, row: seq<int>, n: nat, i: nat, b: int)
    requires i < |row| && b in Given(d, row[i], n)
    ensures b in GivenRow(d, row, n)
    decreases |row|
  {
    var k := |row| - 1;
    if i < k {
      IntoRow(d, row[..k], n, i, b);
    }
  }

  lemma InRow(d: Disk, row: seq<int>, n: nat, b: int)
    ensures b in GivenRow(d, row, n) <==> exists i :: 0 <= i < |row| && b in Given(d, row[i], n)
  {
    if b in GivenRow(d, row, n) {
      var i := FromRow(d, row, n, b);
    }
    if i :| 0 <= i < |row| && b in Given(d, row[i], n) {
      IntoRow(d, row, n, i, b);
    }
  }

  /** Block `b` is a data block of the tree: some path that fits the index blocks leads to it. */
  ghost predicate Leads(d: Disk, root: int, path: seq<int>, p: nat, b: int) {
    (forall i :: 0 <= i < |path| ==> 0 <= path[i] < p) && Lookup(d, root, path) == b
  }

  ghost predicate Reachable(d: Disk, root: int, n: nat, p: nat, b: int) {
    b in Nodes(d, root, n) || exists path :: |path| == n && Leads(d, root, path, p, b)
  }

  lemma ReachableBelow(d: Disk, root: int, n: nat, p: nat, b: int)
    requires n > 0 && 0 < root < |d| && Formatted(d, p) && b != root && Reachable(d, root, n, p, b)
    ensures exists i :: 0 <= i < |d[root]| && Reachable(d, d[root][i], n - 1, p, b)
  {
    if b in Nodes(d, root, n) {
      var i := NodeBelow(d, root, n, b);
      assert Reachable(d, d[root][i], n - 1, p, b);
    } else {
      var path :| |path| == n && Leads(d, root, path, p, b);
      var i := path[0];
      assert 0 <= i < p;
      assert Leads(d, d[root][i], path[1..], p, b);
      assert Reachable(d, d[root][i], n - 1, p, b);
    }
  }

  lemma ReachableAbove(d: Disk, root: int, n: nat, p: nat, b: int, i: nat)
    requires n > 0 && 0 < root < |d| && Formatted(d, p) && i < p && Reachable(d, d[root][i], n - 1, p, b)
    ensures Reachable(d, root, n, p, b)
  {
    ChildNodes(d, root, n, i);
    if b !in Nodes(d, d[root][i], n - 1) {
      var path :| |path| == n - 1 && Leads(d, d[root][i], path, p, b);
      var full := [i] + path;
      assert full[1..] == path;
      assert Leads(d, root, full, p, b);
    }
  }

  /** Exactly the index blocks and the data blocks of the tree are given back. */
  lemma {:induction false} GivenIsReachable(d: Disk, root: int, n: nat, p: nat, b: int)
    requires Tree(d, root, n) && Formatted(d, p) && b != 0
    ensures b in Given(d, root, n) <==> Reachable(d, root, n, p, b)
    decreases n
  {
    if n == 0 {
      if b in Given(d, root, n) {
        assert Leads(d, root, [], p, b);
      }
      if path: seq<int> :| |path| == 0 && Leads(d, root, path, p, b) {
        assert path == [];
      }
    } else if root == 0 {
      forall path: seq<int> | |path| == n ensures !Leads(d, root, path, p, b) {
        NothingAtZero(d, path);
      }
    } else if b != root {
      InRow(d, d[root], n - 1, b);
      forall i | 0 <= i < |d[root]| ensures b in Given(d, d[root][i], n - 1) <==> Reachable(d, d[root][i], n - 1, p, b) {
        assert GoodChild(d, root, n, i);
        GivenIsReachable(d, d[root][i], n - 1, p, b);
      }
      if Reachable(d, root, n, p, b) {
        ReachableBelow(d, root, n, p, b);
      }
      if i :| 0 <= i < |d[root]| && b in Given(d, d[root][i], n - 1) {
        ReachableAbove(d, root, n, p, b, i);
      }
    }
  }

  /** Below the triple range every place is that of some logical block. */
  lemma LogicalAt(slot: nat, path: seq<int>, p: nat) returns (l: nat)
    requires p > 0 && (slot == IND || slot == DIND) && |path| == Levels(slot)
    requires forall i :: 0 <= i < |path| ==> 0 <= path[i] < p
    ensures PlaceOf(l, p) == Place(slot, path)
  {
    if slot == IND {
      l := NDIR + path[0];
    } else {
      var i, j := path[0], path[1];
      DivMod(i, j, p);
      assert i * p + j < p * p by {
        Bits.MulMonotone(i + 1, p, p);
        assert (i + 1) * p == i * p + p;
      }
      l := NDIR + p + (i * p + j);
    }
  }

  /** `b` is the data block of some logical block in the ranges `ext2_block_map_set` serves. */
  ghost predicate Mapped(d: Disk, ib: seq<int>, p: nat, b: int)
    requires p > 0 && |ib| == SLOTS
  {
    exists l: nat :: PlaceOf(l, p).slot != TIND && Map(d, ib, p, l) == b
  }

  ghost predicate InTree(d: Disk, ib: seq<int>, p: nat, s: nat, b: int)
    requires s < |ib|
  {
    Reachable(d, ib[s], Levels(s), p, b)
  }

  lemma TreesAreMapped(d: Disk, ib: seq<int>, p: nat, s: nat, b: int)
    requires p > 0 && |ib| == SLOTS && (s == IND || s == DIND) && InTree(d, ib, p, s, b) && b !in NodesOf(d, ib, s)
    ensures Mapped(d, ib, p, b)
  {
    var path :| |path| == Levels(s) && Leads(d, ib[s], path, p, b);
    var l := LogicalAt(s, path, p);
    assert Map(d, ib, p, l) == b;
  }

  lemma MappedIsInTree(d: Disk, ib: seq<int>, p: nat, l: nat)
    requires p > 0 && |ib| == SLOTS && PlaceOf(l, p).slot != TIND
    ensures l < NDIR || InTree(d, ib, p, PlaceOf(l, p).slot, Map(d, ib, p, l))
  {
    var w := PlaceOf(l, p);
    if l >= NDIR {
      PathInBlock(l, p);
      assert Leads(d, ib[w.slot], w.path, p, Map(d, ib, p, l));
    }
  }

  lemma DirectGiven(d: Disk, ib: seq<int>, b: int)
    requires |ib| == SLOTS && b != 0
    ensures b in GivenRow(d, ib[..NDIR], 0) <==> exists i :: 0 <= i < NDIR && ib[i] == b
  {
    InRow(d, ib[..NDIR], 0, b);
    forall i | 0 <= i < NDIR ensures ib[..NDIR][i] == ib[i] && (b in Given(d, ib[i], 0) <==> ib[i] == b) {
    }
  }

  /**
   * `ext2_free_inode_blocks` gives back the blocks that are mapped below the triple range, the index blocks that
   * map them, and the top of the triple tree.
   */
  lemma GivenAllIsHeld(d: Disk, ib: seq<int>, p: nat, b: int)
    requires p > 0 && Sound(d, ib) && Formatted(d, p) && b != 0
    ensures b in GivenAll(d, ib) <==>
              Mapped(d, ib, p, b) || b in NodesOf(d, ib, IND) || b in NodesOf(d, ib, DIND) || b == ib[TIND]
  {
    assert Tree(d, ib[IND], Levels(IND)) && Tree(d, ib[DIND], Levels(DIND));
    GivenIsReachable(d, ib[IND], 1, p, b);
    GivenIsReachable(d, ib[DIND], 2, p, b);
    DirectGiven(d, ib, b);
    if InTree(d, ib, p, IND, b) && b !in NodesOf(d, ib, IND) {
      TreesAreMapped(d, ib, p, IND, b);
    }
    if InTree(d, ib, p, DIND, b) && b !in NodesOf(d, ib, DIND) {
      TreesAreMapped(d, ib, p, DIND, b);
    }
    if i :| 0 <= i < NDIR && ib[i] == b {
      assert PlaceOf(i, p) == Place(i, []) && Map(d, ib, p, i) == b;
    }
    if l: nat :| PlaceOf(l, p).slot != TIND && Map(d, ib, p, l) == b {
      MappedIsInTree(d, ib, p, l);
      if l < NDIR {
        assert ib[l] == b;
      }
    }
  }

  // ---- When everything is given back ----

  /** Block `b` is an index block or a data block of the inode, in any of its four ranges. */
  ghost predicate Holds(d: Disk, ib: seq<int>, p: nat, b: int)
    requires |ib| == SLOTS
  {
    b != 0 && exists s :: 0 <= s < SLOTS && InTree(d, ib, p, s, b)
  }

  /** All blocks of the inode one after the other, the whole triple tree included. */
  ghost function Holdings(d: Disk, ib: seq<int>): seq<int>
    requires |ib| == SLOTS
  {
    GivenRow(d, ib[..NDIR], 0) + Given(d, ib[IND], 1) + Given(d, ib[DIND], 2) + Given(d, ib[TIND], 3)
  }

  lemma HoldingsAre(d: Disk, ib: seq<int>, p: nat, b: int)
    requires Sound(d, ib) && Formatted(d, p) && b != 0
    ensures b in Holdings(d, ib) <==> Holds(d, ib, p, b)
  {
    forall s | 0 <= s < SLOTS ensures b in Given(d, ib[s], Levels(s)) <==> InTree(d, ib, p, s, b) {
      assert Tree(d, ib[s], Levels(s));
      GivenIsReachable(d, ib[s], Levels(s), p, b);
    }
    DirectGiven(d, ib, b);
    if s :| 0 <= s < SLOTS && InTree(d, ib, p, s, b) {
      assert s == IND || s == DIND || s == TIND || (s < NDIR && b in Given(d, ib[s], 0));
    }
    if i :| 0 <= i < NDIR && ib[i] == b {
      assert b in Given(d, ib[i], Levels(i));
    }
  }

  lemma {:induction false} ZeroRow(d: Disk, row: seq<int>, n: nat)
    requires forall i :: 0 <= i < |row| ==> row[i] == 0
    ensures GivenRow(d, row, n) == []
    decreases |row|
  {
    if row != [] {
      ZeroRow(d, row[..|row| - 1], n);
    }
  }

  /** The triple tree has nothing below its top. */
  ghost predicate Bare(d: Disk, root: int) {
    root == 0 || (0 < root < |d| && forall i :: 0 <= i < |d[root]| ==> d[root][i] == 0)
  }

  lemma BareGives(d: Disk, root: int)
    requires Bare(d, root)
    ensures Given(d, root, 3) == Pointer(root)
  {
    if root != 0 {
      ZeroRow(d, d[root], 2);
    }
  }

  /** A child of the triple top is held, and given back only if something else gives it back. */
  lemma ChildIsKept(d: Disk, ib: seq<int>, i: nat)
    requires Sound(d, ib) && Distinct(Holdings(d, ib)) && 0 < ib[TIND] < |d| && i < |d[ib[TIND]]|
    requires d[ib[TIND]][i] != 0
    ensures d[ib[TIND]][i] in Holdings(d, ib) && d[ib[TIND]][i] !in GivenAll(d, ib)
  {
    var t := ib[TIND];
    var c := d[t][i];
    assert Tree(d, t, Levels(TIND)) && GoodChild(d, t, 3, i);
    assert c in Given(d, c, 2);
    IntoRow(d, d[t], 2, i, c);
    var before := GivenRow(d, ib[..NDIR], 0) + Given(d, ib[IND], 1) + Given(d, ib[DIND], 2);
    Assoc(before, GivenRow(d, d[t], 2), [t]);
    DistinctParts(before, Given(d, t, 3));
    DistinctParts(GivenRow(d, d[t], 2), [t]);
    assert c in ToSet(GivenRow(d, d[t], 2)) && c in ToSet(Given(d, t, 3)) && t in ToSet([t]);
    assert c !in before;
  }

  /**
   * With no block held twice, releasing the inode gives back everything it holds if and only if there is no
   * triple tree or its top points to nothing.
   */
  lemma ReleasesAllIff(d: Disk, ib: seq<int>, p: nat)
    requires p > 0 && Sound(d, ib) && Formatted(d, p) && Distinct(Holdings(d, ib))
    ensures (forall b :: Holds(d, ib, p, b) ==> b in GivenAll(d, ib)) <==> Bare(d, ib[TIND])
  {
    var t := ib[TIND];
    assert Tree(d, t, Levels(TIND));
    if Bare(d, t) {
      BareGives(d, t);
      forall b | Holds(d, ib, p, b) ensures b in GivenAll(d, ib) {
        HoldingsAre(d, ib, p, b);
      }
    } else {
      var i :| 0 <= i < |d[t]| && d[t][i] != 0;
      ChildIsKept(d, ib, i);
      HoldingsAre(d, ib, p, d[t][i]);
      assert Holds(d, ib, p, d[t][i]);
    }
  }

  // ---- A file that is not released ----

  /** Index block `x` points to `y` and to nothing else. */
  ghost predicate Only(d: Disk, x: int, y: int) {
    && 0 < x < |d| && |d[x]| > 0 && d[x][0] == y
    && forall i :: 0 < i < |d[x]| ==> d[x][i] == 0
  }

  lemma {:induction false} OnlyRow(d: Disk, row: seq<int>, n: nat)
    requires |row| > 0 && forall i :: 0 < i < |row| ==> row[i] == 0
    ensures GivenRow(d, row, n) == Given(d, row[0], n)
    decreases |row|
  {
    if |row| == 1 {
      assert row[..0] == [] && GivenRow(d, [], n) == [];
    } else {
      OnlyRow(d, row[..|row| - 1], n);
      assert Given(d, 0, n) == [];
    }
  }

  lemma OnlyNodes(d: Disk, x: int, y: int, n: nat)
    requires n > 0 && Only(d, x, y)
    ensures Nodes(d, x, n) == {x} + Nodes(d, y, n - 1)
  {
    ChildNodes(d, x, n, 0);
    assert Nodes(d, 0, n - 1) == {};
    forall b | b in Nodes(d, x, n) && b != x ensures b in Nodes(d, y, n - 1) {
      var i := NodeBelow(d, x, n, b);
    }
  }

  lemma OnlyTree(d: Disk, x: int, y: int, n: nat)
    requires n > 0 && Only(d, x, y) && Tree(d, y, n - 1) && x !in Nodes(d, y, n - 1)
    ensures Tree(d, x, n) && Nodes(d, x, n) == {x} + Nodes(d, y, n - 1) && Given(d, x, n) == Given(d, y, n - 1) + [x]
  {
    OnlyRow(d, d[x], n - 1);
    OnlyNodes(d, x, y, n);
    forall i | 0 <= i < |d[x]| ensures GoodChild(d, x, n, i) {
      assert i > 0 ==> Tree(d, 0, n - 1) && Nodes(d, 0, n - 1) == {};
    }
    forall i, j | 0 <= i < j < |d[x]| ensures Apart(d, d[x][i], d[x][j], n - 1) {
      assert Nodes(d, 0, n - 1) == {};
    }
  }

  /** The inode of a file with nothing but a triple tree: index blocks `x`, `y`, `z` and the data block `b`. */
  ghost predicate TripleFile(d: Disk, ib: seq<int>, x: int, y: int, z: int, b: int) {
    && Only(d, x, y) && Only(d, y, z) && Only(d, z, b) && 0 < b && Distinct([x, y, z, b])
    && |ib| == SLOTS && ib[TIND] == x && forall s :: 0 <= s < SLOTS && s != TIND ==> ib[s] == 0
  }

  lemma TripleTree(d: Disk, x: int, y: int, z: int, b: int)
    requires Only(d, x, y) && Only(d, y, z) && Only(d, z, b) && 0 < b && x != y && x != z && y != z
    ensures Tree(d, x, 3) && Given(d, x, 3) == [b, z, y, x]
  {
    assert Tree(d, b, 0) && Nodes(d, b, 0) == {} && Given(d, b, 0) == [b];
    OnlyTree(d, z, b, 1);
    OnlyTree(d, y, z, 2);
    OnlyTree(d, x, y, 3);
  }

  lemma TripleSound(d: Disk, ib: seq<int>, x: int, y: int, z: int, b: int)
    requires TripleFile(d, ib, x, y, z, b)
    ensures Sound(d, ib) && Holdings(d, ib) == [b, z, y, x] && GivenAll(d, ib) == [x]
  {
    assert [x, y, z, b][0] != [x, y, z, b][1] && [x, y, z, b][0] != [x, y, z, b][2] && [x, y, z, b][1] != [x, y, z, b][2];
    TripleTree(d, x, y, z, b);
    forall s | 0 <= s < SLOTS ensures Tree(d, ib[s], Levels(s)) && (s != TIND ==> NodesOf(d, ib, s) == {}) {
    }
    ZeroRow(d, ib[..NDIR], 0);
  }

  lemma TripleMapped(d: Disk, ib: seq<int>, p: nat, x: int, y: int, z: int, b: int)
    requires TripleFile(d, ib, x, y, z, b) && p > 0 && Formatted(d, p)
    ensures Map(d, ib, p, NDIR + p + p * p) == b && Holds(d, ib, p, b)
  {
    var path := [0, 0, 0];
    assert PlaceOf(NDIR + p + p * p, p) == Place(TIND, path);
    assert path[1..] == [0, 0] && [0, 0][1..] == [0] && [0][1..] == [];
    assert Lookup(d, z, [0]) == b;
    assert Lookup(d, y, [0, 0]) == b;
    assert Leads(d, x, path, p, b);
    assert InTree(d, ib, p, TIND, b);
  }

  /**
   * On any disk with blocks of 1024 bytes or more, a file with one block in the triple range: that block and the
   * two index blocks above it stay in use.
   */
  lemma TripleFileLeaks(d: Disk, ib: seq<int>, p: nat, x: int, y: int, z: int, b: int)
    requires TripleFile(d, ib, x, y, z, b) && p >= 256 && Formatted(d, p)
    ensures Sound(d, ib) && Distinct(Holdings(d, ib)) && Map(d, ib, p, NDIR + p + p * p) == b && Holds(d, ib, p, b)
    ensures y !in GivenAll(d, ib) && z !in GivenAll(d, ib) && b !in GivenAll(d, ib)
  {
    TripleSound(d, ib, x, y, z, b);
    TripleMapped(d, ib, p, x, y, z, b);
    var q := [x, y, z, b];
    assert q[0] != q[1] && q[0] != q[2] && q[0] != q[3] && q[1] != q[2] && q[1] != q[3] && q[2] != q[3];
  }

  /** There is such a disk. */
  lemma TripleDisk(p: nat) returns (d: Disk, ib: seq<int>)
    requires p > 0
    ensures |d| == 20 && Formatted(d, p) && TripleFile(d, ib, 16, 17, 18, 19)
  {
    d := seq(20, x => seq(p, i => if i == 0 && 16 <= x < 19 then x + 1 else 0));
    ib := seq(SLOTS, s => if s == TIND then 16 else 0);
  }
}
