/** Reading and writing the block map of an inode in place, src/kernel/ext2.c. */
module Ext2Inode {
  import opened Ext2Tree
  import opened Ext2Blocks
  import opened Ext2Map

  /** The index blocks of an inode are in use, and blocks not in use are on the device. */
  ghost predicate Backed(geo: Geometry, d: Disk, ib: seq<int>, used: set<int>) {
    && Owns(d, ib, used)
    && (geo.first == 0 ==> 0 in used)
    && forall b :: geo.first <= b < geo.first + geo.total && b !in used ==> b < |d|
  }

  /** Every block of the volume is in use. */
  ghost predicate Full(geo: Geometry, used: set<int>) {
    forall x :: geo.first <= x < geo.first + geo.total ==> x in used
  }

  lemma UnusedIsUnreached(d: Disk, ib: seq<int>, used: set<int>, b: int)
    requires Owns(d, ib, used) && b !in used
    ensures Unreached(d, ib, b)
  {
    forall s | 0 <= s < |ib| ensures b !in NodesOf(d, ib, s) {
      assert NodesOf(d, ib, s) <= used;
    }
  }

  lemma OwnsMore(d: Disk, ib: seq<int>, e: Disk, jb: seq<int>, used: set<int>, more: set<int>)
    requires Owns(d, ib, used) && |jb| == |ib|
    requires forall s :: 0 <= s < |ib| ==> NodesOf(e, jb, s) <= NodesOf(d, ib, s) + more
    ensures Owns(e, jb, used + more)
  {
    forall s | 0 <= s < |jb| ensures NodesOf(e, jb, s) <= used + more {
      assert NodesOf(d, ib, s) <= used;
    }
  }

  const ENOSPC := 28

  class Ext2 {
    const disk: array<seq<int>>
    const alloc: Allocator
    const p: nat

    constructor (disk: array<seq<int>>, alloc: Allocator, p: nat)
      ensures this.disk == disk && this.alloc == alloc && this.p == p
    {
      this.disk, this.alloc, this.p := disk, alloc, p;
    }

    /** `ib` is the pointer array of an inode in memory. */
    ghost predicate Ready(ib: array<int>)
      reads disk, ib, alloc.maps, alloc.free
    {
      && p > 0 && ib.Length == SLOTS && ib != alloc.free && disk as object != alloc.maps
      && Formatted(disk[..], p) && alloc.Valid()
      && Sound(disk[..], ib[..]) && Backed(alloc.geo, disk[..], ib[..], alloc.View())
    }

    /** `ext2_zero_block`. */
    method ZeroBlock(b: nat)
      requires b < disk.Length
      modifies disk
      ensures disk[..] == old(disk[..])[b := seq(p, _ => 0)]
    {
      disk[b] := seq(p, _ => 0);
    }

    method ReadPointer(b: int, i: nat) returns (v: int)
      requires 0 <= b < disk.Length && i < |disk[b]|
      ensures v == disk[b][i]
    {
      var buf := disk[b];
      v := buf[i];
    }

    method WritePointer(b: int, i: nat, v: int)
      requires 0 <= b < disk.Length && i < |disk[b]|
      modifies disk
      ensures disk[..] == Poke(old(disk[..]), b, i, v)
    {
      var buf := disk[b];
      disk[b] := buf[i := v];
    }

    /** `ext2_block_map`: what the map says, for a block all of whose indices fit. */
    method BlockMap(ib: array<int>, l: nat) returns (b: int)
      requires Ready(ib) && forall k :: 0 <= k < |PlaceOf(l, p).path| ==> 0 <= PlaceOf(l, p).path[k] < p
      ensures b == Map(disk[..], ib[..], p, l)
    {
      if l < NDIR {
        return ib[l];
      }
      ghost var path := PlaceOf(l, p).path;
      var m := l - NDIR;
      if m < p {
        b := Follow(ib[IND], path, m);
        return;
      }
      var n := m - p;
      if n < p * p {
        var ind := Follow(ib[DIND], path, n / p);
        b := Follow(ind, path[1..], n % p);
        return;
      }
      var k := n - p * p;
      var rest := k % (p * p);
      assert path == [k / (p * p), rest / p, rest % p];
      var dind := Follow(ib[TIND], path, k / (p * p));
      var ind := Follow(dind, path[1..], rest / p);
      b := Follow(ind, path[2..], rest % p);
    }

    /** One level down: 0 stays 0, otherwise pointer `i` of the index block. */
    method Follow(root: int, ghost path: seq<int>, i: nat) returns (v: int)
      requires Formatted(disk[..], p) && path != [] && path[0] == i && i < p && Tree(disk[..], root, |path|)
      ensures Tree(disk[..], v, |path| - 1) && Lookup(disk[..], root, path) == Lookup(disk[..], v, path[1..])
    {
      if root == 0 {
        NothingAtZero(disk[..], path[1..]);
        return 0;
      }
      assert GoodChild(disk[..], root, |path|, i);
      v := ReadPointer(root, i);
    }

    /** Allocate a block and zero it. */
    method NewIndex(ib: array<int>) returns (b: nat)
      requires Ready(ib)
      modifies disk, alloc.maps, alloc.free
      ensures Ready(ib)
      ensures b == 0 ==> disk[..] == old(disk[..]) && alloc.View() == old(alloc.View()) && Full(alloc.geo, alloc.View())
      ensures b != 0 ==> Zeroed(old(disk[..]), disk[..], b) && Unreached(old(disk[..]), ib[..], b)
      ensures b != 0 ==> b !in old(alloc.View()) && alloc.View() == old(alloc.View()) + {b}
      ensures MapKept(old(disk[..]), ib[..], disk[..], ib[..], p)
      ensures Owns(disk[..], ib[..], old(alloc.View()))
    {
      ghost var d, used := disk[..], alloc.View();
      b := alloc.AllocBlock();
      if b != 0 {
        UnusedIsUnreached(d, ib[..], used, b);
        ZeroBlock(b);
        ZeroKeeps(d, ib[..], disk[..], p, b);
        OwnsMore(d, ib[..], disk[..], ib[..], used, {});
        assert used + {} == used;
        OwnsMore(d, ib[..], disk[..], ib[..], used, {b});
      }
    }

    /** Slot `s` gets an index block if it has none. */
    method EnsureRoot(ib: array<int>, s: nat) returns (ok: bool)
      requires Ready(ib) && NDIR <= s < SLOTS
      modifies disk, ib, alloc.maps, alloc.free
      ensures Ready(ib)
      ensures ok ==> 0 < ib[s] < disk.Length
      ensures !ok ==> old(ib[s]) == 0 && Full(alloc.geo, alloc.View())
      ensures MapKept(old(disk[..]), old(ib[..]), disk[..], ib[..], p)
    {
      if ib[s] != 0 {
        assert Tree(disk[..], ib[s], Levels(s));
        return true;
      }
      ghost var d, jb, used := disk[..], ib[..], alloc.View();
      var b := NewIndex(ib);
      if b == 0 {
        return false;
      }
      NewRoot(d, jb, disk[..], p, s, b);
      ib[s] := b;
      assert ib[..] == jb[s := b];
      OwnsMore(d, jb, disk[..], ib[..], used, {b});
      ok := true;
    }

    /** Pointer `i` of the double index block gets an index block if it has none. */
    method EnsureChild(ib: array<int>, i: nat) returns (c: int)
      requires Ready(ib) && 0 < ib[DIND] < disk.Length && i < p
      modifies disk, alloc.maps, alloc.free
      ensures Ready(ib)
      ensures c != 0 ==> 0 < c < disk.Length && disk[ib[DIND]][i] == c
      ensures c == 0 ==> Full(alloc.geo, alloc.View())
      ensures MapKept(old(disk[..]), ib[..], disk[..], ib[..], p)
    {
      var root := ib[DIND];
      assert Tree(disk[..], root, 2) by {
        assert Tree(disk[..], ib[DIND], Levels(DIND));
      }
      assert GoodChild(disk[..], root, 2, i);
      c := ReadPointer(root, i);
      if c != 0 {
        return;
      }
      ghost var d, used := disk[..], alloc.View();
      var b := NewIndex(ib);
      if b == 0 {
        return 0;
      }
      ghost var e := disk[..];
      RootIsReached(d, ib[..], b);
      UnusedIsUnreached(e, ib[..], used, b);
      NewChild(e, ib[..], p, i, b);
      WritePointer(root, i, b);
      OwnsMore(e, ib[..], disk[..], ib[..], used, {b});
      c := b;
    }

    /**
     * `ext2_block_map_set`: 0 on success; with every block in use, or beyond the double range, the map stays as
     * it was.
     */
    method BlockMapSet(ib: array<int>, l: nat, v: int) returns (rc: int)
      requires Ready(ib)
      modifies disk, ib, alloc.maps, alloc.free
      ensures Ready(ib)
      ensures rc == 0 ==> MapSet(old(disk[..]), old(ib[..]), disk[..], ib[..], p, l, v)
      ensures rc != 0 ==> rc == -ENOSPC && MapKept(old(disk[..]), old(ib[..]), disk[..], ib[..], p)
      ensures PlaceOf(l, p).slot == TIND ==> rc != 0
      ensures rc != 0 ==> PlaceOf(l, p).slot == TIND || Full(alloc.geo, alloc.View())
    {
      ghost var d, jb := disk[..], ib[..];
      if l < NDIR {
        SetDirect(d, jb, p, l, v);
        ib[l] := v;
        assert ib[..] == jb[l := v];
        OwnsMore(d, jb, disk[..], ib[..], alloc.View(), {});
        return 0;
      }
      var m := l - NDIR;
      if m < p {
        rc := SetThroughSingle(ib, l, v);
      } else if m - p < p * p {
        rc := SetThroughDouble(ib, l, v);
      } else {
        rc := -ENOSPC;
      }
    }

    method SetThroughSingle(ib: array<int>, l: nat, v: int) returns (rc: int)
      requires Ready(ib) && PlaceOf(l, p).slot == IND
      modifies disk, ib, alloc.maps, alloc.free
      ensures Ready(ib)
      ensures rc == 0 ==> MapSet(old(disk[..]), old(ib[..]), disk[..], ib[..], p, l, v)
      ensures rc != 0 ==> rc == -ENOSPC && MapKept(old(disk[..]), old(ib[..]), disk[..], ib[..], p)
      ensures rc != 0 ==> Full(alloc.geo, alloc.View())
    {
      var ok := EnsureRoot(ib, IND);
      if !ok {
        return -ENOSPC;
      }
      ghost var e, used := disk[..], alloc.View();
      SetSingle(e, ib[..], p, l, v);
      WritePointer(ib[IND], l - NDIR, v);
      OwnsMore(e, ib[..], disk[..], ib[..], used, {});
      rc := 0;
    }

    /** Set a pointer of the index block `c` that the double index block leads to. */
    method PutLeaf(ib: array<int>, l: nat, c: int, j: nat, v: int)
      requires Ready(ib) && PlaceOf(l, p).slot == DIND && 0 < ib[DIND] < disk.Length && 0 < c < disk.Length && j < p
      requires var i := PlaceOf(l, p).path[0]; 0 <= i < p && disk[ib[DIND]][i] == c
      requires PlaceOf(l, p).path[1] == j
      modifies disk
      ensures Ready(ib) && MapSet(old(disk[..]), ib[..], disk[..], ib[..], p, l, v)
    {
      ghost var e, used := disk[..], alloc.View();
      SetDouble(e, ib[..], p, l, v);
      WritePointer(c, j, v);
      OwnsMore(e, ib[..], disk[..], ib[..], used, {});
      assert used + {} == used;
    }

    method SetThroughDouble(ib: array<int>, l: nat, v: int) returns (rc: int)
      requires Ready(ib) && PlaceOf(l, p).slot == DIND
      modifies disk, ib, alloc.maps, alloc.free
      ensures Ready(ib)
      ensures rc == 0 ==> MapSet(old(disk[..]), old(ib[..]), disk[..], ib[..], p, l, v)
      ensures rc != 0 ==> rc == -ENOSPC && MapKept(old(disk[..]), old(ib[..]), disk[..], ib[..], p)
      ensures rc != 0 ==> Full(alloc.geo, alloc.View())
    {
      ghost var d, jb := disk[..], ib[..];
      PathInBlock(l, p);
      var n := l - NDIR - p;
      var idx1, idx2 := n / p, n % p;
      ghost var path := PlaceOf(l, p).path;
      assert path[0] == idx1 && path[1] == idx2;
      var ok := EnsureRoot(ib, DIND);
      if !ok {
        return -ENOSPC;
      }
      ghost var e := disk[..];
      var ind := EnsureChild(ib, idx1);
      KeptTwice(d, jb, e, ib[..], disk[..], ib[..], p);
      if ind == 0 {
        return -ENOSPC;
      }
      ghost var f := disk[..];
      PutLeaf(ib, l, ind, idx2, v);
      KeptThenSet(d, jb, f, ib[..], disk[..], ib[..], p, l, v);
      rc := 0;
    }
  }

  lemma KeptTwice(d: Disk, ib: seq<int>, e: Disk, jb: seq<int>, f: Disk, kb: seq<int>, p: nat)
    requires p > 0 && |ib| == SLOTS && |jb| == SLOTS && |kb| == SLOTS
    requires MapKept(d, ib, e, jb, p) && MapKept(e, jb, f, kb, p)
    ensures MapKept(d, ib, f, kb, p)
  {
  }

  lemma KeptThenSet(d: Disk, ib: seq<int>, e: Disk, jb: seq<int>, f: Disk, kb: seq<int>, p: nat, l: nat, v: int)
    requires p > 0 && |ib| == SLOTS && |jb| == SLOTS && |kb| == SLOTS
    requires MapKept(d, ib, e, jb, p) && MapSet(e, jb, f, kb, p, l, v)
    ensures MapSet(d, ib, f, kb, p, l, v)
  {
  }

  lemma RootIsReached(d: Disk, ib: seq<int>, b: int)
    requires Unreached(d, ib, b) && |ib| == SLOTS && 0 < ib[DIND] < |d|
    ensures b != ib[DIND]
  {
    assert b !in NodesOf(d, ib, DIND);
  }
}
