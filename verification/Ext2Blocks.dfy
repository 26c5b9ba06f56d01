/** Block allocation of src/kernel/ext2.c: one bitmap and one free count per block group. */
module Ext2Blocks {
  import opened Bits
  import opened Words

  // ---- Bitmaps ----

  predicate BitAt(m: seq<nat>, i: nat) {
    i / 8 < |m| && Bit(m[i / 8], i % 8)
  }

  function Mark(m: seq<nat>, i: nat): (r: seq<nat>)
    requires i / 8 < |m|
    ensures |r| == |m|
  {
    m[i / 8 := SetBit(m[i / 8], i % 8)]
  }

  function Unmark(m: seq<nat>, i: nat): (r: seq<nat>)
    requires i / 8 < |m|
    ensures |r| == |m|
  {
    m[i / 8 := ClearBit(m[i / 8], i % 8)]
  }

  lemma MarkIs(m: seq<nat>, i: nat, j: nat)
    requires i / 8 < |m|
    ensures BitAt(Mark(m, i), j) == (j == i || BitAt(m, j))
    ensures BitAt(Unmark(m, i), j) == (j != i && BitAt(m, j))
  {
    SetBitIs(m[i / 8], i % 8, j % 8);
    ClearBitIs(m[i / 8], i % 8, j % 8);
  }

  /** Clear bits among the first `n`. */
  function CountClear(m: seq<nat>, n: nat): nat {
    if n == 0 then 0 else CountClear(m, n - 1) + if BitAt(m, n - 1) then 0 else 1
  }

  lemma {:induction false} CountMark(m: seq<nat>, i: nat, n: nat)
    requires i / 8 < |m| && !BitAt(m, i)
    ensures CountClear(Mark(m, i), n) == CountClear(m, n) - if i < n then 1 else 0
  {
    if n > 0 {
      CountMark(m, i, n - 1);
      MarkIs(m, i, n - 1);
    }
  }

  lemma {:induction false} CountUnmark(m: seq<nat>, i: nat, n: nat)
    requires i / 8 < |m| && BitAt(m, i)
    ensures CountClear(Unmark(m, i), n) == CountClear(m, n) + if i < n then 1 else 0
  {
    if n > 0 {
      CountUnmark(m, i, n - 1);
      MarkIs(m, i, n - 1);
    }
  }

  /** A count of zero means there is no clear bit to find. */
  lemma {:induction false} CountZero(m: seq<nat>, n: nat)
    ensures CountClear(m, n) == 0 <==> forall i :: 0 <= i < n ==> BitAt(m, i)
  {
    if n > 0 {
      CountZero(m, n - 1);
    }
  }

  // ---- Groups ----

  datatype Geometry = Geometry(groups: nat, bpg: nat, total: nat, first: nat)

  /** First block of group `g`, counted from the first data block. */
  function Start(geo: Geometry, g: nat): nat {
    if g == 0 then 0 else Start(geo, g - 1) + geo.bpg
  }

  lemma {:induction false} StartIs(geo: Geometry, g: nat)
    ensures Start(geo, g) == g * geo.bpg
  {
    if g > 0 {
      StartIs(geo, g - 1);
      assert g * geo.bpg == (g - 1) * geo.bpg + geo.bpg;
    }
  }

  /** The groups are just enough for all blocks, and block numbers have 32 bits. */
  ghost predicate GeoOk(geo: Geometry) {
    && geo.bpg > 0 && geo.groups > 0 && Start(geo, geo.groups - 1) < geo.total <= Start(geo, geo.groups)
    && geo.first + geo.total <= TWO_32
  }

  /** Bits of group `g` that stand for blocks. */
  function Limit(geo: Geometry, g: nat): int {
    if g == geo.groups - 1 then geo.total - Start(geo, g) else geo.bpg
  }

  /** The block a bit stands for. */
  function BlockOf(geo: Geometry, g: nat, bit: nat): nat {
    geo.first + Start(geo, g) + bit
  }

  ghost predicate IsBit(geo: Geometry, g: int, bit: int) {
    0 <= g < geo.groups && 0 <= bit < Limit(geo, g)
  }

  lemma {:induction false} StartsApart(geo: Geometry, g: nat, h: nat)
    requires g < h
    ensures Start(geo, g) + geo.bpg <= Start(geo, h)
  {
    if g + 1 < h {
      StartsApart(geo, g, h - 1);
    }
  }

  lemma LimitBound(geo: Geometry, g: nat)
    requires GeoOk(geo) && g < geo.groups
    ensures 0 < Limit(geo, g) <= geo.bpg && Start(geo, g) + Limit(geo, g) <= geo.total
  {
    if g < geo.groups - 1 {
      StartsApart(geo, g, geo.groups - 1);
    }
  }

  /** Different bits stand for different blocks. */
  lemma BlockOfInjective(geo: Geometry, g: nat, i: nat, h: nat, j: nat)
    requires GeoOk(geo) && IsBit(geo, g, i) && IsBit(geo, h, j) && BlockOf(geo, g, i) == BlockOf(geo, h, j)
    ensures g == h && i == j
  {
    LimitBound(geo, g);
    LimitBound(geo, h);
    if g < h {
      StartsApart(geo, g, h);
    } else if h < g {
      StartsApart(geo, h, g);
    }
  }

  /** The group and bit `ext2_free_block` computes for a block are those that stand for it. */
  lemma Locate(geo: Geometry, g: nat, bit: nat)
    requires GeoOk(geo) && IsBit(geo, g, bit)
    ensures (BlockOf(geo, g, bit) - geo.first) / geo.bpg == g && (BlockOf(geo, g, bit) - geo.first) % geo.bpg == bit
  {
    StartIs(geo, g);
    LimitBound(geo, g);
    DivMod(g, bit, geo.bpg);
  }

  lemma DivMod(q: nat, r: nat, d: nat)
    requires r < d
    ensures (q * d + r) / d == q && (q * d + r) % d == r
  {
    var x, y := (q * d + r) / d, (q * d + r) % d;
    assert (x - q) * d == r - y;
    if x > q {
      AtLeast(x - q, d);
    } else if x < q {
      assert (q - x) * d == y - r;
      AtLeast(q - x, d);
    }
  }

  lemma AtLeast(n: int, d: nat)
    requires n >= 1
    ensures n * d >= d
  {
    assert n * d == (n - 1) * d + d;
  }

  // ---- What is in use ----

  ghost predicate MapsOk(geo: Geometry, maps: seq<seq<nat>>) {
    |maps| == geo.groups && forall g :: 0 <= g < geo.groups ==> geo.bpg <= 8 * |maps[g]|
  }

  ghost predicate Marked(geo: Geometry, maps: seq<seq<nat>>, b: int, g: int, bit: int) {
    IsBit(geo, g, bit) && g < |maps| && BlockOf(geo, g, bit) == b && BitAt(maps[g], bit)
  }

  ghost predicate InUse(geo: Geometry, maps: seq<seq<nat>>, b: int) {
    exists g, bit :: Marked(geo, maps, b, g, bit)
  }

  /** The blocks in use. */
  ghost function Used(geo: Geometry, maps: seq<seq<nat>>): set<int> {
    set b | geo.first <= b < geo.first + geo.total && InUse(geo, maps, b)
  }

  /** Every free count is the number of clear bits of its group. */
  ghost predicate Counted(geo: Geometry, maps: seq<seq<nat>>, free: seq<int>) {
    |maps| == |free| == geo.groups && forall g :: 0 <= g < geo.groups && Limit(geo, g) >= 0 ==> free[g] == CountClear(maps[g], Limit(geo, g))
  }

  lemma UsedIff(geo: Geometry, maps: seq<seq<nat>>, g: nat, bit: nat)
    requires GeoOk(geo) && MapsOk(geo, maps) && IsBit(geo, g, bit)
    ensures BlockOf(geo, g, bit) in Used(geo, maps) <==> BitAt(maps[g], bit)
  {
    LimitBound(geo, g);
    var b := BlockOf(geo, g, bit);
    if BitAt(maps[g], bit) {
      assert Marked(geo, maps, b, g, bit);
    }
    if h, j :| Marked(geo, maps, b, h, j) {
      BlockOfInjective(geo, g, bit, h, j);
    }
  }

  /** Every block of the volume has its bit. */
  lemma {:induction false} BitOf(geo: Geometry, b: int, n: nat) returns (g: nat, bit: nat)
    requires GeoOk(geo) && n < geo.groups && geo.first <= b < geo.first + (if n + 1 == geo.groups then geo.total else Start(geo, n + 1))
    ensures IsBit(geo, g, bit) && BlockOf(geo, g, bit) == b
    decreases n
  {
    if b >= geo.first + Start(geo, n) {
      g, bit := n, b - geo.first - Start(geo, n);
    } else {
      g, bit := BitOf(geo, b, n - 1);
    }
  }

  lemma MarkUses(geo: Geometry, maps: seq<seq<nat>>, g: nat, bit: nat)
    requires GeoOk(geo) && MapsOk(geo, maps) && IsBit(geo, g, bit)
    ensures bit / 8 < |maps[g]|
    ensures Used(geo, maps[g := Mark(maps[g], bit)]) == Used(geo, maps) + {BlockOf(geo, g, bit)}
    ensures Used(geo, maps[g := Unmark(maps[g], bit)]) == Used(geo, maps) - {BlockOf(geo, g, bit)}
  {
    LimitBound(geo, g);
    var on, off := maps[g := Mark(maps[g], bit)], maps[g := Unmark(maps[g], bit)];
    var b := BlockOf(geo, g, bit);
    forall x | geo.first <= x < geo.first + geo.total
      ensures x in Used(geo, on) <==> x == b || x in Used(geo, maps)
      ensures x in Used(geo, off) <==> x != b && x in Used(geo, maps)
    {
      var h, j := BitOf(geo, x, geo.groups - 1);
      UsedIff(geo, maps, h, j);
      UsedIff(geo, on, h, j);
      UsedIff(geo, off, h, j);
      if h == g {
        MarkIs(maps[g], bit, j);
      }
      if x == b {
        BlockOfInjective(geo, g, bit, h, j);
      }
    }
  }

  ghost predicate AllMarked(m: seq<nat>, n: int) {
    forall i :: 0 <= i < n ==> BitAt(m, i)
  }

  /** All blocks below `b` are in use. */
  ghost predicate FullBelow(geo: Geometry, maps: seq<seq<nat>>, b: int) {
    forall x :: geo.first <= x < b && x < geo.first + geo.total ==> x in Used(geo, maps)
  }

  /** Groups before `g` and bits before `bit` of it are all set, so every lower block is in use. */
  lemma SearchedBelow(geo: Geometry, maps: seq<seq<nat>>, g: nat, bit: nat)
    requires GeoOk(geo) && MapsOk(geo, maps) && g <= geo.groups && (g < geo.groups ==> bit <= Limit(geo, g)) && (g == geo.groups ==> bit == 0)
    requires forall h :: 0 <= h < g ==> AllMarked(maps[h], Limit(geo, h))
    requires g < geo.groups ==> AllMarked(maps[g], bit)
    ensures FullBelow(geo, maps, BlockOf(geo, g, bit))
  {
    forall x | geo.first <= x < BlockOf(geo, g, bit) && x < geo.first + geo.total ensures x in Used(geo, maps) {
      var h, j := BitOf(geo, x, geo.groups - 1);
      if h > g {
        StartsApart(geo, g, h);
        LimitBound(geo, g);
      }
      UsedIff(geo, maps, h, j);
    }
  }

  lemma MarkCounts(geo: Geometry, maps: seq<seq<nat>>, free: seq<int>, g: nat, bit: nat)
    requires GeoOk(geo) && MapsOk(geo, maps) && Counted(geo, maps, free) && IsBit(geo, g, bit)
    ensures bit / 8 < |maps[g]|
    ensures !BitAt(maps[g], bit) ==> Counted(geo, maps[g := Mark(maps[g], bit)], free[g := free[g] - 1])
    ensures BitAt(maps[g], bit) ==> Counted(geo, maps[g := Unmark(maps[g], bit)], free[g := free[g] + 1])
  {
    LimitBound(geo, g);
    if BitAt(maps[g], bit) {
      CountUnmark(maps[g], bit, Limit(geo, g));
    } else {
      CountMark(maps[g], bit, Limit(geo, g));
    }
  }

  class Allocator {
    const geo: Geometry
    const maps: array<seq<nat>>
    const free: array<int>

    constructor (geo: Geometry, maps: array<seq<nat>>, free: array<int>)
      ensures this.geo == geo && this.maps == maps && this.free == free
    {
      this.geo, this.maps, this.free := geo, maps, free;
    }

    ghost predicate Valid()
      reads maps, free
    {
      && GeoOk(geo) && MapsOk(geo, maps[..]) && Counted(geo, maps[..], free[..])
    }

    ghost function View(): set<int>
      reads maps
    {
      Used(geo, maps[..])
    }

    /** First clear bit of group `g`, or its limit. */
    method FindClear(g: nat) returns (bit: nat)
      requires Valid() && g < geo.groups
      ensures bit <= Limit(geo, g) && AllMarked(maps[g], bit)
      ensures bit < Limit(geo, g) ==> !BitAt(maps[g], bit)
    {
      LimitBound(geo, g);
      StartIs(geo, g);
      var inGroup := geo.bpg;
      if g == geo.groups - 1 {
        var rem := geo.total - g * geo.bpg;
        if rem < inGroup {
          inGroup := rem;
        }
      }
      bit := 0;
      while bit < inGroup && BitAt(maps[g], bit)
        invariant 0 <= bit <= inGroup
        invariant AllMarked(maps[g], bit)
      {
        bit := bit + 1;
      }
    }

    /** `ext2_alloc_block`: the lowest free block, or 0 if every block is in use. */
    method AllocBlock() returns (b: nat)
      requires Valid() && (geo.first == 0 ==> 0 in View())
      modifies maps, free
      ensures Valid()
      ensures b == 0 ==> View() == old(View()) && FullBelow(geo, old(maps[..]), geo.first + geo.total)
      ensures b != 0 ==> b !in old(View()) && geo.first <= b < geo.first + geo.total && View() == old(View()) + {b}
      ensures b != 0 ==> FullBelow(geo, old(maps[..]), b)
    {
      var g := 0;
      while g < geo.groups
        invariant 0 <= g <= geo.groups
        invariant forall h :: 0 <= h < g ==> AllMarked(maps[h], Limit(geo, h))
        invariant Valid() && maps[..] == old(maps[..]) && free[..] == old(free[..])
      {
        LimitBound(geo, g);
        CountZero(maps[g], Limit(geo, g));
        if free[g] != 0 {
          var bit := FindClear(g);
          if bit < Limit(geo, g) {
            b := Take(g, bit);
            return;
          }
        }
        g := g + 1;
      }
      SearchedBelow(geo, maps[..], geo.groups, 0);
      b := 0;
    }

    method Take(g: nat, bit: nat) returns (b: nat)
      requires Valid() && IsBit(geo, g, bit) && !BitAt(maps[g], bit) && (geo.first == 0 ==> 0 in View())
      requires forall h :: 0 <= h < g ==> AllMarked(maps[h], Limit(geo, h))
      requires AllMarked(maps[g], bit)
      modifies maps, free
      ensures Valid() && b != 0
      ensures b !in old(View()) && geo.first <= b < geo.first + geo.total && View() == old(View()) + {b}
      ensures FullBelow(geo, old(maps[..]), b)
    {
      ghost var m, f := maps[..], free[..];
      LimitBound(geo, g);
      StartIs(geo, g);
      MarkUses(geo, m, g, bit);
      MarkCounts(geo, m, f, g, bit);
      UsedIff(geo, m, g, bit);
      SearchedBelow(geo, m, g, bit);
      maps[g] := Mark(maps[g], bit);
      free[g] := free[g] - 1;
      assert maps[..] == m[g := Mark(m[g], bit)] && free[..] == f[g := f[g] - 1];
      b := g * geo.bpg + bit + geo.first;
    }

    /**
     * `ext2_free_block` of any block number. Block 0 and blocks beyond the groups are ignored; the count stays
     * right exactly for these and for blocks in use. A bit past the limit of the last group is cleared and counted.
     */
    method FreeBlock(b: nat)
      requires Valid() && b < TWO_32
      modifies maps, free
      ensures Valid() <==> Ignored(geo, b) || b in old(View())
      ensures View() == if b == 0 then old(View()) else old(View()) - {b}
    {
      if b == 0 {
        return;
      }
      ghost var m, f := maps[..], free[..];
      var adj := (b - geo.first) % TWO_32;
      var g, bit := adj / geo.bpg, adj % geo.bpg;
      Found(geo, b);
      if g >= geo.groups {
        NotHeld(geo, m, b);
        return;
      }
      FreedBit(geo, m, f, b);
      maps[g] := Unmark(maps[g], bit);
      free[g] := free[g] + 1;
      assert maps[..] == m[g := Unmark(m[g], bit)] && free[..] == f[g := f[g] + 1];
    }
  }

  // ---- Freeing ----

  /** The group and the bit `ext2_free_block` computes, in 32 bits. */
  function GroupOf(geo: Geometry, b: nat): nat
    requires geo.bpg > 0
  {
    (b - geo.first) % TWO_32 / geo.bpg
  }

  function BitIn(geo: Geometry, b: nat): (r: nat)
    requires geo.bpg > 0
    ensures r < geo.bpg
  {
    (b - geo.first) % TWO_32 % geo.bpg
  }

  predicate Ignored(geo: Geometry, b: nat)
    requires geo.bpg > 0
  {
    b == 0 || GroupOf(geo, b) >= geo.groups
  }

  lemma Recombined(geo: Geometry, b: nat)
    requires GeoOk(geo)
    ensures Start(geo, GroupOf(geo, b)) + BitIn(geo, b) == (b - geo.first) % TWO_32
  {
    StartIs(geo, GroupOf(geo, b));
  }

  lemma Wrapped(b: nat, first: nat)
    requires b < TWO_32 && first <= TWO_32
    ensures (b - first) % TWO_32 == if b >= first then b - first else b - first + TWO_32
  {
  }

  /** They stand for a block exactly if it is one of the device, and then for that block. */
  lemma Found(geo: Geometry, b: nat)
    requires GeoOk(geo) && b < TWO_32
    ensures IsBit(geo, GroupOf(geo, b), BitIn(geo, b)) <==> geo.first <= b < geo.first + geo.total
    ensures geo.first <= b < geo.first + geo.total ==> BlockOf(geo, GroupOf(geo, b), BitIn(geo, b)) == b
  {
    Recombined(geo, b);
    Wrapped(b, geo.first);
    if geo.first <= b < geo.first + geo.total {
      var g, bit := BitOf(geo, b, geo.groups - 1);
      Locate(geo, g, bit);
    } else if IsBit(geo, GroupOf(geo, b), BitIn(geo, b)) {
      LimitBound(geo, GroupOf(geo, b));
    }
  }

  lemma NotHeld(geo: Geometry, maps: seq<seq<nat>>, b: nat)
    requires GeoOk(geo) && MapsOk(geo, maps) && b < TWO_32 && !IsBit(geo, GroupOf(geo, b), BitIn(geo, b))
    ensures b !in Used(geo, maps)
  {
    Found(geo, b);
  }

  lemma {:induction false} UnmarkClear(m: seq<nat>, i: nat, n: nat)
    requires i / 8 < |m| && !BitAt(m, i)
    ensures CountClear(Unmark(m, i), n) == CountClear(m, n)
  {
    if n > 0 {
      UnmarkClear(m, i, n - 1);
      MarkIs(m, i, n - 1);
    }
  }

  /** A bit past the limit stands for nothing, and no count includes it. */
  lemma {:induction false} UnmarkPast(m: seq<nat>, i: nat, n: nat)
    requires i / 8 < |m| && n <= i
    ensures CountClear(Unmark(m, i), n) == CountClear(m, n)
  {
    if n > 0 {
      UnmarkPast(m, i, n - 1);
      MarkIs(m, i, n - 1);
    }
  }

  lemma UnmarkPastUses(geo: Geometry, maps: seq<seq<nat>>, g: nat, bit: nat)
    requires GeoOk(geo) && MapsOk(geo, maps) && g < geo.groups && Limit(geo, g) <= bit < geo.bpg
    ensures bit / 8 < |maps[g]| && Used(geo, maps[g := Unmark(maps[g], bit)]) == Used(geo, maps)
  {
    var off := maps[g := Unmark(maps[g], bit)];
    forall x | geo.first <= x < geo.first + geo.total ensures x in Used(geo, off) <==> x in Used(geo, maps) {
      var h, j := BitOf(geo, x, geo.groups - 1);
      UsedIff(geo, maps, h, j);
      UsedIff(geo, off, h, j);
      if h == g {
        MarkIs(maps[g], bit, j);
      }
    }
  }

  /** One count more in a group is right exactly if one more of its blocks has become free. */
  lemma CountedIff(geo: Geometry, maps: seq<seq<nat>>, free: seq<int>, g: nat, m: seq<nat>)
    requires GeoOk(geo) && Counted(geo, maps, free) && g < geo.groups
    ensures Limit(geo, g) > 0
    ensures Counted(geo, maps[g := m], free[g := free[g] + 1])
            <==> CountClear(m, Limit(geo, g)) == CountClear(maps[g], Limit(geo, g)) + 1
  {
    LimitBound(geo, g);
  }

  /** What clearing the bit of `b` and counting it does. */
  lemma FreedBit(geo: Geometry, maps: seq<seq<nat>>, free: seq<int>, b: nat)
    requires GeoOk(geo) && MapsOk(geo, maps) && Counted(geo, maps, free) && 0 < b < TWO_32 && GroupOf(geo, b) < geo.groups
    ensures var g, bit := GroupOf(geo, b), BitIn(geo, b);
            && bit / 8 < |maps[g]|
            && MapsOk(geo, maps[g := Unmark(maps[g], bit)])
            && Used(geo, maps[g := Unmark(maps[g], bit)]) == Used(geo, maps) - {b}
            && (Counted(geo, maps[g := Unmark(maps[g], bit)], free[g := free[g] + 1]) <==> b in Used(geo, maps))
  {
    var g, bit := GroupOf(geo, b), BitIn(geo, b);
    Found(geo, b);
    CountedIff(geo, maps, free, g, Unmark(maps[g], bit));
    if bit < Limit(geo, g) {
      MarkUses(geo, maps, g, bit);
      UsedIff(geo, maps, g, bit);
      if BitAt(maps[g], bit) {
        CountUnmark(maps[g], bit, Limit(geo, g));
      } else {
        UnmarkClear(maps[g], bit, Limit(geo, g));
      }
    } else {
      NotHeld(geo, maps, b);
      UnmarkPast(maps[g], bit, Limit(geo, g));
      UnmarkPastUses(geo, maps, g, bit);
    }
  }

  /** A block that is allocated, freed and freed again: whatever the device, the counts are wrong afterwards. */
  method FreedTwice(a: Allocator) returns (b: nat)
    requires a.Valid() && (a.geo.first == 0 ==> 0 in a.View())
    modifies a.maps, a.free
    ensures b == 0 ==> FullBelow(a.geo, old(a.maps[..]), a.geo.first + a.geo.total)
    ensures b != 0 ==> b !in old(a.View()) && a.geo.first <= b < a.geo.first + a.geo.total
                       && FullBelow(a.geo, old(a.maps[..]), b)
    ensures a.Valid() <==> b == 0
  {
    b := a.AllocBlock();
    if b != 0 {
      a.FreeBlock(b);
      Found(a.geo, b);
      a.FreeBlock(b);
    }
  }

  /**
   * The last group is searched one bit too far when block numbers start at 1: the lowest free block is on the
   * device exactly if some block of the device is free, else it is the one past the end, unless that is marked.
   */
  lemma LowestFreeOnDevice(geo: Geometry, maps: seq<seq<nat>>, b: int)
    requires GeoOk(geo) && geo.first == 1
    requires b !in Used(geo, maps) && geo.first <= b < geo.first + geo.total && FullBelow(geo, maps, b)
    ensures b < geo.total <==> exists x :: geo.first <= x < geo.total && x !in Used(geo, maps)
    ensures b < geo.total || b == geo.total
  {
  }

  lemma FourBits(m: seq<nat>)
    requires m == [11]
    ensures BitAt(m, 0) && BitAt(m, 1) && !BitAt(m, 2) && BitAt(m, 3) && CountClear(m, 4) == 1
  {
    assert CountClear(m, 1) == 0 && CountClear(m, 2) == 0 && CountClear(m, 3) == 1;
  }

  lemma FourBlocks(geo: Geometry, maps: seq<seq<nat>>, free: seq<int>)
    requires geo == Geometry(1, 8, 4, 1) && |maps| == |free| == 1 && maps[0] == [11] && free[0] == 1
    ensures GeoOk(geo) && MapsOk(geo, maps) && Counted(geo, maps, free)
    ensures 1 in Used(geo, maps) && 2 in Used(geo, maps) && 3 !in Used(geo, maps)
  {
    FourBits(maps[0]);
    assert Start(geo, 0) == 0 && Start(geo, 1) == 8 && Limit(geo, 0) == 4;
    assert BlockOf(geo, 0, 0) == 1 && BlockOf(geo, 0, 1) == 2 && BlockOf(geo, 0, 2) == 3;
    UsedIff(geo, maps, 0, 0);
    UsedIff(geo, maps, 0, 1);
    UsedIff(geo, maps, 0, 2);
  }

  /** A device of the blocks 0 to 3 with the last one free: block 3 is given out, and freed twice. */
  method SecondFreeMiscounts() returns (a: Allocator, b: nat)
    ensures fresh(a.maps) && fresh(a.free) && a.geo == Geometry(1, 8, 4, 1) && b == 3 && !a.Valid()
  {
    var maps, free := new seq<nat>[1](_ => [11]), new int[1](_ => 1);
    a := new Allocator(Geometry(1, 8, 4, 1), maps, free);
    FourBlocks(a.geo, maps[..], free[..]);
    b := FreedTwice(a);
  }

  /** One group whose blocks on the device are all in use: the lowest free block is the one past the end. */
  lemma PastTheEnd(geo: Geometry, maps: seq<seq<nat>>)
    requires GeoOk(geo) && MapsOk(geo, maps) && geo.groups == 1 && geo.first == 1
    requires AllMarked(maps[0], geo.total - 1) && !BitAt(maps[0], geo.total - 1)
    ensures geo.total !in Used(geo, maps) && FullBelow(geo, maps, geo.total) && geo.total < geo.first + geo.total
  {
    assert Start(geo, 0) == 0 && BlockOf(geo, 0, geo.total - 1) == geo.total;
    LimitBound(geo, 0);
    UsedIff(geo, maps, 0, geo.total - 1);
    SearchedBelow(geo, maps, 0, geo.total - 1);
  }

  /** Such a device: the blocks 0 to 3, of which 1 to 3 are in use, lead to block 4. */
  lemma PastTheEndOfFour(m: seq<nat>)
    requires m == [7]
    ensures var geo := Geometry(1, 8, 4, 1); GeoOk(geo) && MapsOk(geo, [m]) && AllMarked(m, 3) && !BitAt(m, 3)
  {
    assert BitAt(m, 0) && BitAt(m, 1) && BitAt(m, 2);
  }
}
