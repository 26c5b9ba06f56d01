/** The block map of an ext2 inode, src/kernel/ext2.c: logical blocks found through direct and index blocks. */
module Ext2Map {
  import Bits
  import opened Ext2Tree
  import opened Ext2Blocks

  const NDIR := 12
  const IND := 12
  const DIND := 13
  const TIND := 14
  const SLOTS := 15

  // ---- Where a logical block is found ----

  /** The inode slot to start from and the indices to follow from there. */
  datatype Place = Place(slot: nat, path: seq<int>)

  function PlaceOf(l: nat, p: nat): (r: Place)
    requires p > 0
    ensures r.slot < SLOTS && |r.path| == Levels(r.slot)
  {
    if l < NDIR then Place(l, []) else
    var m := l - NDIR;
    if m < p then Place(IND, [m]) else
    var n := m - p;
    if n < p * p then Place(DIND, [n / p, n % p]) else
    var k := n - p * p;
    var rest := k % (p * p);
    Place(TIND, [k / (p * p), rest / p, rest % p])
  }

  function Levels(slot: nat): nat {
    if slot < NDIR then 0 else slot - NDIR + 1
  }

  lemma SameQuotient(a: nat, b: nat, d: nat)
    requires d > 0 && a / d == b / d && a % d == b % d
    ensures a == b
  {
    assert a == a / d * d + a % d && b == b / d * d + b % d;
  }

  /** Different logical blocks are found in different places. */
  lemma PlaceInjective(l: nat, x: nat, p: nat)
    requires p > 0 && PlaceOf(l, p) == PlaceOf(x, p)
    ensures l == x
  {
    var a := PlaceOf(l, p).path;
    var b := PlaceOf(x, p).path;
    if PlaceOf(l, p).slot == DIND {
      assert a[0] == b[0] && a[1] == b[1];
      SameQuotient(l - NDIR - p, x - NDIR - p, p);
    } else if PlaceOf(l, p).slot == TIND {
      var k, j := l - NDIR - p - p * p, x - NDIR - p - p * p;
      assert a[0] == b[0] && a[1] == b[1] && a[2] == b[2];
      SameQuotient(k % (p * p), j % (p * p), p);
      SameQuotient(k, j, p * p);
    } else if PlaceOf(l, p).slot == IND {
      assert a[0] == b[0];
    }
  }

  lemma QuotientSmall(n: nat, p: nat)
    requires p > 0 && n < p * p
    ensures n / p < p
  {
    var q := n / p;
    assert q * p <= n;
    if q >= p {
      Bits.MulMonotone(p, q, p);
    }
  }

  /** Indices within the single and double ranges fit their index blocks. */
  lemma PathInBlock(l: nat, p: nat)
    requires p > 0 && (PlaceOf(l, p).slot == IND || PlaceOf(l, p).slot == DIND)
    ensures forall i :: 0 <= i < |PlaceOf(l, p).path| ==> 0 <= PlaceOf(l, p).path[i] < p
  {
    if PlaceOf(l, p).slot == DIND {
      QuotientSmall(l - NDIR - p, p);
    }
  }

  // ---- Which pointer that is ----

  lemma Digits(q: nat, r: nat, d: nat)
    requires r < d
    ensures (q * d + r) / d == q && (q * d + r) % d == r
  {
    DivMod(q, r, d);
  }

  /** The logical block behind pointer `i` of the single index block. */
  lemma PlaceSingle(p: nat, i: nat)
    requires i < p
    ensures PlaceOf(NDIR + i, p) == Place(IND, [i])
  {
  }

  lemma Square(p: nat, i: nat, j: nat)
    requires i < p && j < p
    ensures i * p + j < p * p
  {
    Bits.MulMonotone(i + 1, p, p);
    assert (i + 1) * p == i * p + p;
  }

  /** Behind pointer `j` of index block `i`, of those the double index block lists. */
  lemma PlaceDouble(p: nat, i: nat, j: nat)
    requires i < p && j < p
    ensures PlaceOf(NDIR + p + (i * p + j), p) == Place(DIND, [i, j])
  {
    Square(p, i, j);
    Digits(i, j, p);
  }

  /** One level deeper. */
  lemma PlaceTriple(p: nat, h: nat, i: nat, j: nat)
    requires i < p && j < p
    ensures PlaceOf(NDIR + p + p * p + (h * (p * p) + (i * p + j)), p) == Place(TIND, [h, i, j])
  {
    Square(p, i, j);
    Digits(i, j, p);
    Digits(h, i * p + j, p * p);
  }

  // ---- The map of an inode ----

  /** The physical block of logical block `l`, 0 if none. */
  ghost function Map(d: Disk, ib: seq<int>, p: nat, l: nat): int
    requires p > 0 && |ib| == SLOTS
  {
    var w := PlaceOf(l, p);
    Lookup(d, ib[w.slot], w.path)
  }

  /** Pointer `i` of index block `b`; without the block there is nothing. */
  ghost function PointerAt(d: Disk, b: int, i: nat): int {
    if 0 < b < |d| && i < |d[b]| then d[b][i] else 0
  }

  lemma MapAt(d: Disk, ib: seq<int>, p: nat, l: nat, w: Place)
    requires p > 0 && |ib| == SLOTS && PlaceOf(l, p) == w
    ensures Map(d, ib, p, l) == Lookup(d, ib[w.slot], w.path)
  {
  }

  /** The blocks of a file in order: first the direct pointers, then those of the single index block. */
  lemma MapSingle(d: Disk, ib: seq<int>, p: nat, i: nat)
    requires |ib| == SLOTS && i < p
    ensures forall l :: 0 <= l < NDIR ==> Map(d, ib, p, l) == ib[l]
    ensures Map(d, ib, p, NDIR + i) == PointerAt(d, ib[IND], i)
  {
    PlaceSingle(p, i);
    LookupOne(d, ib[IND], i);
  }

  /** Then those of the index blocks the double one lists, block after block. */
  lemma MapDouble(d: Disk, ib: seq<int>, p: nat, i: nat, j: nat, l: nat)
    requires |ib| == SLOTS && i < p && j < p && l == NDIR + p + (i * p + j)
    ensures Map(d, ib, p, l) == PointerAt(d, PointerAt(d, ib[DIND], i), j)
  {
    PlaceDouble(p, i, j);
    MapAt(d, ib, p, l, Place(DIND, [i, j]));
    LookupTwo(d, ib[DIND], i, j);
  }

  /** Then those one level deeper. */
  lemma MapTriple(d: Disk, ib: seq<int>, p: nat, h: nat, i: nat, j: nat, l: nat)
    requires |ib| == SLOTS && i < p && j < p && l == NDIR + p + p * p + (h * (p * p) + (i * p + j))
    ensures Map(d, ib, p, l) == PointerAt(d, PointerAt(d, PointerAt(d, ib[TIND], h), i), j)
  {
    PlaceTriple(p, h, i, j);
    MapAt(d, ib, p, l, Place(TIND, [h, i, j]));
    LookupThree(d, ib[TIND], h, i, j);
  }

  lemma LookupOne(d: Disk, b: int, i: nat)
    ensures Lookup(d, b, [i]) == PointerAt(d, b, i)
  {
    assert [i][1..] == [];
  }

  lemma LookupTwo(d: Disk, b: int, i: nat, j: nat)
    ensures Lookup(d, b, [i, j]) == PointerAt(d, PointerAt(d, b, i), j)
  {
    assert [i, j][1..] == [j];
    LookupOne(d, PointerAt(d, b, i), j);
  }

  lemma LookupThree(d: Disk, b: int, h: nat, i: nat, j: nat)
    ensures Lookup(d, b, [h, i, j]) == PointerAt(d, PointerAt(d, PointerAt(d, b, h), i), j)
  {
    assert [h, i, j][1..] == [i, j];
    LookupTwo(d, PointerAt(d, b, h), i, j);
  }

  lemma TwoDigits(n: nat, p: nat)
    requires p > 0 && n < p * p
    ensures n == n / p * p + n % p && n / p < p && n % p < p
  {
    QuotientSmall(n, p);
  }

  lemma RecoverTriple(k: nat, p: nat)
    requires p > 0
    ensures var rest := k % (p * p); k == k / (p * p) * (p * p) + (rest / p * p + rest % p) && rest / p < p && rest % p < p
  {
    var q := p * p;
    assert k == k / q * q + k % q && k % q < q;
    TwoDigits(k % q, p);
  }

  /** Every logical block is one of these. */
  lemma PlaceRecovers(l: nat, p: nat)
    requires p > 0
    ensures var w := PlaceOf(l, p);
            && (w.slot < NDIR ==> l == w.slot)
            && (w.slot == IND ==> w.path[0] < p && l == NDIR + w.path[0])
            && (w.slot == DIND ==> w.path[0] < p && w.path[1] < p && l == NDIR + p + (w.path[0] * p + w.path[1]))
            && (w.slot == TIND ==> w.path[1] < p && w.path[2] < p
                                   && l == NDIR + p + p * p + (w.path[0] * (p * p) + (w.path[1] * p + w.path[2])))
  {
    var w := PlaceOf(l, p);
    if w.slot == DIND {
      TwoDigits(l - NDIR - p, p);
    } else if w.slot == TIND {
      RecoverTriple(l - NDIR - p - p * p, p);
    }
  }

  ghost function NodesOf(d: Disk, ib: seq<int>, s: nat): set<int>
    requires s < |ib|
  {
    Nodes(d, ib[s], Levels(s))
  }

  /** Every slot is the root of a tree, and no index block is in two of them. */
  ghost predicate Sound(d: Disk, ib: seq<int>) {
    && |ib| == SLOTS
    && (forall s :: 0 <= s < SLOTS ==> Tree(d, ib[s], Levels(s)))
    && (forall s, u :: 0 <= s < u < SLOTS ==> NodesOf(d, ib, s) !! NodesOf(d, ib, u))
  }

  ghost predicate Owns(d: Disk, ib: seq<int>, used: set<int>) {
    forall s :: 0 <= s < |ib| ==> NodesOf(d, ib, s) <= used
  }

  /** Slot `s` now leads to tree `root` on disk `e`, made of its old index blocks and at most `added`. */
  ghost predicate SlotChanged(d: Disk, ib: seq<int>, e: Disk, s: nat, root: int, added: set<int>)
    requires s < |ib|
  {
    && |e| == |d| && Tree(e, root, Levels(s)) && Nodes(e, root, Levels(s)) <= NodesOf(d, ib, s) + added
    && forall b :: 0 <= b < |d| && b !in NodesOf(d, ib, s) + added ==> e[b] == d[b]
  }

  lemma OtherSlot(d: Disk, ib: seq<int>, e: Disk, s: nat, root: int, added: set<int>, u: nat)
    requires Sound(d, ib) && s < SLOTS && u < SLOTS && u != s && SlotChanged(d, ib, e, s, root, added)
    requires NodesOf(d, ib, u) !! added
    ensures Same(d, e, NodesOf(d, ib, u)) && NodesOf(d, ib, u) !! NodesOf(d, ib, s)
  {
    InRange(d, ib[u], Levels(u));
    assert if u < s then NodesOf(d, ib, u) !! NodesOf(d, ib, s) else NodesOf(d, ib, s) !! NodesOf(d, ib, u);
  }

  /** The other slots keep their trees and what is found in them. */
  lemma SlotKeepsSound(d: Disk, ib: seq<int>, e: Disk, s: nat, root: int, added: set<int>)
    requires Sound(d, ib) && s < SLOTS && SlotChanged(d, ib, e, s, root, added)
    requires forall u :: 0 <= u < SLOTS && u != s ==> NodesOf(d, ib, u) !! added
    ensures Sound(e, ib[s := root])
    ensures forall u :: 0 <= u < SLOTS && u != s ==> NodesOf(e, ib[s := root], u) == NodesOf(d, ib, u)
  {
    var jb := ib[s := root];
    forall u | 0 <= u < SLOTS && u != s
      ensures Tree(e, jb[u], Levels(u)) && NodesOf(e, jb, u) == NodesOf(d, ib, u) && NodesOf(e, jb, u) !! NodesOf(e, jb, s)
    {
      OtherSlot(d, ib, e, s, root, added, u);
      Frame(d, e, ib[u], Levels(u));
    }
    forall t, u | 0 <= t < u < SLOTS ensures NodesOf(e, jb, t) !! NodesOf(e, jb, u) {
      if t != s && u != s {
        assert NodesOf(d, ib, t) !! NodesOf(d, ib, u);
      }
    }
  }

  lemma SlotKeepsMap(d: Disk, ib: seq<int>, e: Disk, p: nat, s: nat, root: int, added: set<int>, x: nat)
    requires p > 0 && Sound(d, ib) && s < SLOTS && SlotChanged(d, ib, e, s, root, added)
    requires forall u :: 0 <= u < SLOTS && u != s ==> NodesOf(d, ib, u) !! added
    requires PlaceOf(x, p).slot != s
    ensures Map(e, ib[s := root], p, x) == Map(d, ib, p, x)
  {
    var w := PlaceOf(x, p);
    OtherSlot(d, ib, e, s, root, added, w.slot);
    FrameLookup(d, e, ib[w.slot], w.path);
  }

  // ---- Effects on the whole map ----

  /** The map is as before except at `l`, which is now `v`. */
  ghost predicate MapSet(d: Disk, ib: seq<int>, e: Disk, jb: seq<int>, p: nat, l: nat, v: int)
    requires p > 0 && |ib| == SLOTS && |jb| == SLOTS
  {
    forall x: nat :: Map(e, jb, p, x) == if x == l then v else Map(d, ib, p, x)
  }

  ghost predicate MapKept(d: Disk, ib: seq<int>, e: Disk, jb: seq<int>, p: nat)
    requires p > 0 && |ib| == SLOTS && |jb| == SLOTS
  {
    forall x: nat :: Map(e, jb, p, x) == Map(d, ib, p, x)
  }

  lemma SetDirect(d: Disk, ib: seq<int>, p: nat, l: nat, v: int)
    requires p > 0 && Sound(d, ib) && l < NDIR
    ensures Sound(d, ib[l := v]) && MapSet(d, ib, d, ib[l := v], p, l, v)
    ensures forall u :: 0 <= u < SLOTS ==> NodesOf(d, ib[l := v], u) == NodesOf(d, ib, u)
  {
    SlotKeepsSound(d, ib, d, l, v, {});
    forall x: nat ensures Map(d, ib[l := v], p, x) == if x == l then v else Map(d, ib, p, x) {
      if PlaceOf(x, p).slot != l {
        SlotKeepsMap(d, ib, d, p, l, v, {}, x);
      }
    }
  }

  /** Block `b` was zeroed; nothing reached it. */
  ghost predicate Zeroed(d: Disk, e: Disk, b: int) {
    && 0 < b < |d| && |e| == |d| && (forall i :: 0 <= i < |e[b]| ==> e[b][i] == 0)
    && forall c :: 0 <= c < |d| && c != b ==> e[c] == d[c]
  }

  ghost predicate Unreached(d: Disk, ib: seq<int>, b: int) {
    forall s :: 0 <= s < |ib| ==> b !in NodesOf(d, ib, s)
  }

  /** An empty slot is given a fresh index block: still nothing is mapped through it. */
  lemma NewRoot(d: Disk, ib: seq<int>, e: Disk, p: nat, s: nat, b: int)
    requires p > 0 && Sound(d, ib) && NDIR <= s < SLOTS && ib[s] == 0 && Zeroed(d, e, b) && Unreached(d, ib, b)
    ensures Sound(e, ib[s := b]) && MapKept(d, ib, e, ib[s := b], p)
    ensures NodesOf(e, ib[s := b], s) <= {b}
    ensures forall u :: 0 <= u < SLOTS && u != s ==> NodesOf(e, ib[s := b], u) == NodesOf(d, ib, u)
  {
    FreshTree(e, b, Levels(s));
    SlotKeepsSound(d, ib, e, s, b, {b});
    forall x: nat ensures Map(e, ib[s := b], p, x) == Map(d, ib, p, x) {
      var w := PlaceOf(x, p);
      if w.slot != s {
        SlotKeepsMap(d, ib, e, p, s, b, {b}, x);
      } else {
        FreshLookup(e, b, w.path);
        NothingAtZero(d, w.path);
      }
    }
  }

  /** A pointer of a single-level tree is set. */
  lemma SetSingle(d: Disk, ib: seq<int>, p: nat, l: nat, v: int)
    requires p > 0 && Sound(d, ib) && Formatted(d, p) && PlaceOf(l, p).slot == IND && 0 < ib[IND] < |d|
    ensures 0 <= l - NDIR < |d[ib[IND]]|
    ensures var e := Poke(d, ib[IND], l - NDIR, v);
            && Sound(e, ib) && MapSet(d, ib, e, ib, p, l, v)
            && forall u :: 0 <= u < SLOTS ==> NodesOf(e, ib, u) <= NodesOf(d, ib, u)
  {
    var root, i := ib[IND], l - NDIR;
    var e := Poke(d, root, i, v);
    assert Graftable(d, root, 1, i, v) by {
      forall j | 0 <= j < |d[root]| && j != i ensures Apart(d, d[root][j], v, 0) {
      }
    }
    PokeTree(d, root, 1, i, v);
    ChildNodes(d, root, 1, i);
    assert SlotChanged(d, ib, e, IND, root, {});
    SlotKeepsSound(d, ib, e, IND, root, {});
    assert ib[IND := root] == ib;
    forall x: nat ensures Map(e, ib, p, x) == if x == l then v else Map(d, ib, p, x) {
      var w := PlaceOf(x, p);
      if w.slot != IND {
        SlotKeepsMap(d, ib, e, p, IND, root, {}, x);
      } else {
        PokeLookup(d, root, i, v, w.path);
      }
    }
  }

  /** Zeroing a block no tree reaches changes nothing. */
  lemma ZeroKeeps(d: Disk, ib: seq<int>, e: Disk, p: nat, b: int)
    requires p > 0 && Sound(d, ib) && Zeroed(d, e, b) && Unreached(d, ib, b)
    ensures Sound(e, ib) && MapKept(d, ib, e, ib, p)
    ensures forall u :: 0 <= u < SLOTS ==> NodesOf(e, ib, u) == NodesOf(d, ib, u)
  {
    forall u | 0 <= u < SLOTS ensures Same(d, e, NodesOf(d, ib, u)) {
      InRange(d, ib[u], Levels(u));
      assert b !in NodesOf(d, ib, u);
    }
    forall u | 0 <= u < SLOTS ensures Tree(e, ib[u], Levels(u)) && NodesOf(e, ib, u) == NodesOf(d, ib, u) {
      assert Same(d, e, NodesOf(d, ib, u));
      Frame(d, e, ib[u], Levels(u));
    }
    assert forall s, u :: 0 <= s < u < SLOTS ==> NodesOf(d, ib, s) !! NodesOf(d, ib, u);
    forall x: nat ensures Map(e, ib, p, x) == Map(d, ib, p, x) {
      var w := PlaceOf(x, p);
      assert Same(d, e, NodesOf(d, ib, w.slot));
      FrameLookup(d, e, ib[w.slot], w.path);
    }
  }

  /** A fresh zeroed block is hung into an empty pointer of the double index block. */
  lemma NewChild(d: Disk, ib: seq<int>, p: nat, i: nat, b: int)
    requires p > 0 && Sound(d, ib) && 0 < ib[DIND] < |d| && i < |d[ib[DIND]]| && d[ib[DIND]][i] == 0
    requires 0 < b < |d| && (forall j :: 0 <= j < |d[b]| ==> d[b][j] == 0) && Unreached(d, ib, b)
    ensures var e := Poke(d, ib[DIND], i, b);
            && Sound(e, ib) && MapKept(d, ib, e, ib, p)
            && NodesOf(e, ib, DIND) <= NodesOf(d, ib, DIND) + {b}
            && forall u :: 0 <= u < SLOTS && u != DIND ==> NodesOf(e, ib, u) == NodesOf(d, ib, u)
  {
    var root := ib[DIND];
    var e := Poke(d, root, i, b);
    FreshTree(d, b, 1);
    ChildNodes(d, root, 2, i);
    assert b !in NodesOf(d, ib, DIND);
    assert Graftable(d, root, 2, i, b) by {
      forall j | 0 <= j < |d[root]| && j != i ensures Apart(d, d[root][j], b, 1) {
        ChildNodes(d, root, 2, j);
      }
    }
    PokeTree(d, root, 2, i, b);
    assert SlotChanged(d, ib, e, DIND, root, {b});
    SlotKeepsSound(d, ib, e, DIND, root, {b});
    assert ib[DIND := root] == ib;
    forall x: nat ensures Map(e, ib, p, x) == Map(d, ib, p, x) {
      var w := PlaceOf(x, p);
      if w.slot != DIND {
        SlotKeepsMap(d, ib, e, p, DIND, root, {b}, x);
      } else {
        PokeLookup(d, root, i, b, w.path);
        FreshLookup(d, b, w.path[1..]);
        NothingAtZero(d, w.path[1..]);
      }
    }
  }

  lemma SetLeaf(d: Disk, root: int, i: nat, j: nat, v: int)
    requires Tree(d, root, 2) && 0 < root < |d| && i < |d[root]| && 0 < d[root][i] < |d| && j < |d[d[root][i]]|
    ensures ChildChanged(d, Poke(d, d[root][i], j, v), root, 2, i)
  {
    var c := d[root][i];
    assert GoodChild(d, root, 2, i);
    assert Graftable(d, c, 1, j, v) by {
      forall k | 0 <= k < |d[c]| && k != j ensures Apart(d, d[c][k], v, 0) {
      }
    }
    PokeTree(d, c, 1, j, v);
    ChildNodes(d, c, 1, j);
  }

  lemma LeafLookup(d: Disk, c: int, j: nat, v: int, path: seq<int>)
    requires |path| == 1 && 0 < c < |d| && j < |d[c]|
    ensures Lookup(Poke(d, c, j, v), c, path) == if path[0] == j then v else Lookup(d, c, path)
  {
    var e := Poke(d, c, j, v);
    if 0 <= path[0] < |d[c]| {
      assert Lookup(e, c, path) == Lookup(e, e[c][path[0]], []);
      assert Lookup(d, c, path) == Lookup(d, d[c][path[0]], []);
    }
  }

  /** A pointer two levels down is set. */
  lemma SetDouble(d: Disk, ib: seq<int>, p: nat, l: nat, v: int)
    requires p > 0 && Sound(d, ib) && Formatted(d, p) && PlaceOf(l, p).slot == DIND && 0 < ib[DIND] < |d|
    requires forall k :: 0 <= k < 2 ==> 0 <= PlaceOf(l, p).path[k] < p
    requires 0 < d[ib[DIND]][PlaceOf(l, p).path[0]] < |d|
    ensures var c, j := d[ib[DIND]][PlaceOf(l, p).path[0]], PlaceOf(l, p).path[1];
            var e := Poke(d, c, j, v);
            && Sound(e, ib) && MapSet(d, ib, e, ib, p, l, v)
            && forall u :: 0 <= u < SLOTS ==> NodesOf(e, ib, u) <= NodesOf(d, ib, u)
  {
    var root, i, j := ib[DIND], PlaceOf(l, p).path[0], PlaceOf(l, p).path[1];
    var c := d[root][i];
    var e := Poke(d, c, j, v);
    SetLeaf(d, root, i, j, v);
    ChildKeepsTree(d, e, root, 2, i);
    ChildNodes(d, root, 2, i);
    assert SlotChanged(d, ib, e, DIND, root, {});
    SlotKeepsSound(d, ib, e, DIND, root, {});
    assert ib[DIND := root] == ib;
    forall x: nat ensures Map(e, ib, p, x) == if x == l then v else Map(d, ib, p, x) {
      var w := PlaceOf(x, p);
      if w.slot != DIND {
        SlotKeepsMap(d, ib, e, p, DIND, root, {}, x);
      } else {
        ChildLookup(d, e, root, i, w.path);
        LeafLookup(d, c, j, v, w.path[1..]);
        if w.path[0] == i && w.path[1] == j {
          assert w.path == PlaceOf(l, p).path;
          PlaceInjective(l, x, p);
        }
      }
    }
  }
}
