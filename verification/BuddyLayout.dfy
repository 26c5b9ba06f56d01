/** The heap as a partition into buddy blocks: what a layout means, independent of headers and lists. */
module BuddyLayout {
  import opened Bits

  const KHEAP_START := 0xD0000000
  const MIN_ORDER := 5
  const MAX_ORDER := 23
  const HEAP_SIZE := 0x800000
  const HEADER_SIZE := 16
  /** Every block starts on a multiple of the smallest block, 32 bytes: one granule. */
  const GRANULE := 32
  const GRANULES := 0x40000
  const ADDRESS_SPACE := 0x1_0000_0000

  /** `Live` blocks remember the size their owner asked for. */
  datatype Status = Free | Live(size: nat)
  datatype Block = Block(order: int, status: Status)

  /** Start granule of a block to the block. */
  type Layout = map<int, Block>

  /** Granules in a block of order `o`. */
  function Span(o: nat): (s: nat)
    ensures s > 0
  {
    if o <= MIN_ORDER then 1 else 2 * Span(o - 1)
  }

  lemma {:induction false} SpanIsPow2(o: nat)
    requires MIN_ORDER <= o
    ensures Span(o) == Pow2(o - MIN_ORDER) && Pow2(o) == GRANULE * Span(o)
  {
    if o == MIN_ORDER {
      assert Pow2(5) == 4 * Pow2(3) == 32;
    } else {
      SpanIsPow2(o - 1);
    }
  }

  lemma SpanTop()
    ensures Span(MAX_ORDER) == GRANULES && Pow2(MAX_ORDER) == HEAP_SIZE
  {
    assert Span(23) == 4 * Span(21) == 16 * Span(19) == 64 * Span(17) == 256 * Span(15);
    assert Span(15) == 4 * Span(13) == 16 * Span(11) == 64 * Span(9) == 256 * Span(7);
    SpanIsPow2(MAX_ORDER);
  }

  lemma SpanMonotone(o: nat, p: nat)
    requires MIN_ORDER <= o <= p
    ensures Span(o) <= Span(p)
  {
    SpanIsPow2(o);
    SpanIsPow2(p);
    Pow2Monotone(o - MIN_ORDER, p - MIN_ORDER);
  }

  /** A place where a block of order `o` may lie: inside the heap, on a multiple of its own size. */
  ghost predicate Fits(b: int, o: int) {
    && MIN_ORDER <= o <= MAX_ORDER && 0 <= b
    && Aligned(b, o - MIN_ORDER)
    && b + Span(o) <= GRANULES
  }

  ghost function End(m: Layout, b: int): int
    requires b in m
  {
    if m[b].order < 0 then b else b + Span(m[b].order)
  }

  ghost predicate AllFit(m: Layout) {
    forall b :: b in m ==> Fits(b, m[b].order)
  }

  /** The next block starts where this one ends. */
  ghost predicate Continues(m: Layout, b: int) {
    b in m ==> End(m, b) == GRANULES || End(m, b) in m
  }

  ghost predicate Gapless(m: Layout) {
    0 in m && forall b {:trigger Continues(m, b)} :: Continues(m, b)
  }

  ghost predicate Disjoint(m: Layout) {
    forall b, c :: b in m && c in m && b < c ==> End(m, b) <= c
  }

  /** The blocks are naturally aligned, do not overlap, and cover the heap without a gap. */
  ghost predicate Tiles(m: Layout) {
    AllFit(m) && Gapless(m) && Disjoint(m)
  }

  /** The other half of the block of twice the size. */
  ghost function Buddy(b: int, o: int): (u: int)
    requires MIN_ORDER <= o && 0 <= b
  {
    if Bit(b, o - MIN_ORDER) then b - Span(o) else b + Span(o)
  }

  ghost predicate FreeAt(m: Layout, b: int, o: int) {
    b in m && m[b] == Block(o, Free)
  }

  /** Not a free block whose buddy is free at the same order. */
  ghost predicate Unpaired(m: Layout, b: int) {
    b in m && m[b].status.Free? && 0 <= b && MIN_ORDER <= m[b].order < MAX_ORDER ==>
      !FreeAt(m, Buddy(b, m[b].order), m[b].order)
  }

  /** Coalescing is complete: no free block has a free buddy of its own order. */
  ghost predicate Settled(m: Layout) {
    forall b {:trigger Unpaired(m, b)} :: Unpaired(m, b)
  }

  /** What the callers of the allocator hold. */
  ghost function Held(m: Layout): Layout {
    map b | b in m && m[b].status.Live? :: m[b]
  }

  /** An aligned region of order `o` that no live block touches. */
  ghost predicate FreeRegion(m: Layout, r: int, o: int) {
    && Fits(r, o)
    && forall b :: b in m && b < r + Span(o) && r < End(m, b) ==> m[b].status.Free?
  }

  // ---- Buddy arithmetic ----

  /** Both halves of a block of order `o + 1` are blocks of order `o`, and each is the other's buddy. */
  lemma HalvesFit(b: int, o: int)
    requires MIN_ORDER <= o < MAX_ORDER && Fits(b, o + 1)
    ensures Fits(b, o) && Fits(b + Span(o), o) && Span(o + 1) == 2 * Span(o)
    ensures Buddy(b, o) == b + Span(o) && Buddy(b + Span(o), o) == b
  {
    SpanIsPow2(o);
    HalvesAligned(b, o - MIN_ORDER);
  }

  /** A block and its buddy make up an aligned block of the next order. */
  lemma BuddiesFit(b: int, o: int)
    requires o < MAX_ORDER && Fits(b, o)
    ensures var u := Buddy(b, o); var lo := if u < b then u else b;
            && 0 <= u && Fits(u, o) && Fits(lo, o + 1)
            && Span(o + 1) == 2 * Span(o) && u != b
            && Buddy(u, o) == b
  {
    var k := o - MIN_ORDER;
    SpanIsPow2(o);
    SpanIsPow2(o + 1);
    EvenHalf(b, k);
    var lo := if Bit(b, k) then b - Span(o) else b;
    SpanTop();
    SpanIsPow2(MAX_ORDER);
    AlignedPow2(k + 1, MAX_ORDER - MIN_ORDER);
    MultiplesApart(lo, GRANULES, k + 1);
    HalvesFit(lo, o);
  }

  /** The address computation of `buddy_of`: exclusive or on the byte offset, refused outside the heap. */
  function BuddyOf(b: nat, o: nat): (r: int) {
    var x := Xor(b * GRANULE, Pow2(o));
    if x >= HEAP_SIZE then -1 else x / GRANULE
  }

  /** For every block below the top order the computed address is the buddy's. */
  lemma BuddyOfIsBuddy(b: int, o: int)
    requires o < MAX_ORDER && Fits(b, o)
    ensures BuddyOf(b, o) == Buddy(b, o) >= 0
  {
    BuddiesFit(b, o);
    SpanIsPow2(MIN_ORDER);
    SpanIsPow2(o);
    BitShift(b, o - MIN_ORDER, MIN_ORDER);
    XorPow2(b * GRANULE, o);
  }

  // ---- What tiling implies ----

  lemma {:induction false} BlockFrom(m: Layout, c: int, g: int) returns (b: int)
    requires Tiles(m) && c in m && c <= g < GRANULES
    ensures b in m && b <= g < End(m, b)
    decreases GRANULES - c
  {
    if g < End(m, c) {
      b := c;
    } else {
      assert Continues(m, c);
      b := BlockFrom(m, End(m, c), g);
    }
  }

  /** Every granule belongs to a block. */
  lemma BlockAt(m: Layout, g: int) returns (b: int)
    requires Tiles(m) && 0 <= g < GRANULES
    ensures b in m && b <= g < End(m, b)
  {
    b := BlockFrom(m, 0, g);
  }

  lemma AlignedAt(b: int, o: int, p: int)
    requires MIN_ORDER <= o <= p && 0 <= b && Aligned(b, p - MIN_ORDER)
    ensures Aligned(b, o - MIN_ORDER) && Aligned(b + Span(p), o - MIN_ORDER)
  {
    SpanIsPow2(p);
    AlignedNext(b, p - MIN_ORDER);
    AlignedDown(b, o - MIN_ORDER, p - MIN_ORDER);
    AlignedDown(b + Span(p), o - MIN_ORDER, p - MIN_ORDER);
  }

  /** An aligned region that starts inside a block of at least its size lies inside it. */
  lemma BelowTop(r: nat, top: nat, o: int)
    requires MIN_ORDER <= o && Aligned(r, o - MIN_ORDER) && Aligned(top, o - MIN_ORDER) && r < top
    ensures r + Span(o) <= top
  {
    SpanIsPow2(o);
    MultiplesApart(r, top, o - MIN_ORDER);
  }

  lemma Inside(b: int, p: int, r: int, o: int)
    requires Fits(b, p) && Fits(r, o) && o <= p && b <= r < b + Span(p)
    ensures r + Span(o) <= b + Span(p)
  {
    AlignedAt(b, o, p);
    BelowTop(r, b + Span(p), o);
  }

  /** Aligned blocks nest or are disjoint. */
  lemma Nested(b: int, p: int, r: int, o: int)
    requires Fits(b, p) && Fits(r, o) && o <= p
    requires b < r + Span(o) && r < b + Span(p)
    ensures b <= r && r + Span(o) <= b + Span(p)
  {
    AlignedAt(b, o, p);
    SpanIsPow2(o);
    if r < b {
      MultiplesApart(r, b, o - MIN_ORDER);
    }
    Inside(b, p, r, o);
  }

  /** The address `buddy_of` yields always is the start of a block, so the header read there is a header. */
  lemma BuddyIsBlock(m: Layout, b: int)
    requires Tiles(m) && b in m && m[b].order < MAX_ORDER
    ensures Buddy(b, m[b].order) in m && Buddy(b, m[b].order) != b
    ensures m[Buddy(b, m[b].order)].order <= m[b].order
  {
    var o := m[b].order;
    var u := Buddy(b, o);
    BuddiesFit(b, o);
    var lo := if u < b then u else b;
    var c := BlockAt(m, u);
    var p := m[c].order;
    if p > o {
      Nested(c, p, lo, o + 1);
    } else {
      Nested(u, o, c, p);
    }
  }

  lemma FreeHalves(m: Layout, r: int, o: int)
    requires MIN_ORDER <= o < MAX_ORDER && FreeRegion(m, r, o + 1)
    ensures FreeRegion(m, r, o) && FreeRegion(m, r + Span(o), o)
  {
    HalvesFit(r, o);
  }

  ghost predicate Holds(m: Layout, b: int, r: int, o: int) {
    && 0 <= o && b in m && m[b].status.Free? && m[b].order >= o
    && b <= r && r + Span(o) <= End(m, b)
  }

  lemma NoFreeBuddy(m: Layout, b: int)
    requires AllFit(m) && Settled(m) && b in m && m[b].status.Free? && m[b].order < MAX_ORDER
    ensures !FreeAt(m, Buddy(b, m[b].order), m[b].order)
  {
    assert Unpaired(m, b);
  }

  lemma JoinHalves(m: Layout, r: int, o: int, b: int, c: int) returns (d: int)
    requires Tiles(m) && Settled(m) && MIN_ORDER <= o < MAX_ORDER && Fits(r, o + 1)
    requires Holds(m, b, r, o) && Holds(m, c, r + Span(o), o)
    ensures Holds(m, d, r, o + 1)
  {
    HalvesFit(r, o);
    if m[b].order > o {
      Inside(b, m[b].order, r, o + 1);
      d := b;
    } else if m[c].order > o {
      Nested(c, m[c].order, r, o + 1);
      d := c;
    } else {
      NoFreeBuddy(m, b);
    }
  }

  /** With coalescing complete, a region nobody uses lies inside one free block. */
  lemma {:induction false} FreeRegionInFreeBlock(m: Layout, r: int, o: int) returns (b: int)
    requires Tiles(m) && Settled(m) && FreeRegion(m, r, o)
    ensures Holds(m, b, r, o)
    decreases o
  {
    if o == MIN_ORDER {
      b := BlockAt(m, r);
    } else {
      FreeHalves(m, r, o - 1);
      b := FreeRegionInFreeBlock(m, r, o - 1);
      var c := FreeRegionInFreeBlock(m, r + Span(o - 1), o - 1);
      b := JoinHalves(m, r, o - 1, b, c);
    }
  }

  /** Once nothing is held, the heap is the single block it started as. */
  lemma AllFreed(m: Layout)
    requires Tiles(m) && Settled(m) && Held(m) == map[]
    ensures m == map[0 := Block(MAX_ORDER, Free)]
  {
    SpanTop();
    assert forall b :: b in m && m[b].status.Live? ==> b in Held(m);
    assert Fits(0, MAX_ORDER) by {
      AlignedZero(MAX_ORDER - MIN_ORDER);
    }
    var b := FreeRegionInFreeBlock(m, 0, MAX_ORDER);
    assert forall c :: c in m ==> c == 0;
  }

  lemma HeldAgree(m: Layout, n: Layout, b: int)
    requires Held(m) == Held(n) && b in m && m[b].status.Live?
    ensures b in n && n[b] == m[b]
  {
    assert b in Held(m);
  }

  lemma FreeBlockMatches(m: Layout, n: Layout, b: int)
    requires Tiles(m) && Settled(m) && Tiles(n) && Settled(n) && Held(m) == Held(n)
    requires b in m && m[b].status.Free?
    ensures b in n && n[b] == m[b]
  {
    assert FreeRegion(n, b, m[b].order) by {
      forall c | c in n && c < End(m, b) && b < End(n, c) ensures n[c].status.Free? {
        if n[c].status.Live? {
          HeldAgree(n, m, c);
        }
      }
    }
    var c := FreeRegionInFreeBlock(n, b, m[b].order);
    assert FreeRegion(m, c, n[c].order) by {
      forall d | d in m && d < End(n, c) && c < End(m, d) ensures m[d].status.Free? {
        if m[d].status.Live? {
          HeldAgree(m, n, d);
        }
      }
    }
    var d := FreeRegionInFreeBlock(m, c, n[c].order);
    assert d == b;
    SpanMonotone(m[b].order, n[c].order);
  }

  /** The layout depends only on what is held, not on the history of calls that led there. */
  lemma LayoutIsCanonical(m: Layout, n: Layout)
    requires Tiles(m) && Settled(m) && Tiles(n) && Settled(n)
    requires Held(m) == Held(n)
    ensures m == n
  {
    forall b | b in m ensures b in n && n[b] == m[b] {
      if m[b].status.Free? {
        FreeBlockMatches(m, n, b);
      } else {
        HeldAgree(m, n, b);
      }
    }
    forall b | b in n ensures b in m {
      if n[b].status.Free? {
        FreeBlockMatches(n, m, b);
      } else {
        HeldAgree(n, m, b);
      }
    }
  }

  // ---- Steps on layouts ----

  /** Halve the block a caller is being given; the upper half becomes free. */
  ghost function SplitAt(m: Layout, b: int, o: nat, size: nat): Layout {
    m[b := Block(o, Live(size))][b + Span(o) := Block(o, Free)]
  }

  lemma SplitGapless(m: Layout, b: int, o: nat, size: nat)
    requires Gapless(m) && b in m && m[b].order == o + 1 && Span(o + 1) == 2 * Span(o)
    ensures Gapless(SplitAt(m, b, o, size))
  {
    var n := SplitAt(m, b, o, size);
    forall x ensures Continues(n, x) {
      assert Continues(m, x) && Continues(m, b);
    }
  }

  lemma SplitDisjoint(m: Layout, b: int, o: nat, size: nat)
    requires Disjoint(m) && b in m && m[b].order == o + 1 && Span(o + 1) == 2 * Span(o) && Span(o) > 0
    ensures Disjoint(SplitAt(m, b, o, size))
  {
    var n := SplitAt(m, b, o, size);
    forall x, y | x in n && y in n && x < y ensures End(n, x) <= y {
      assert x != b && x != b + Span(o) ==> x in m && n[x] == m[x];
      assert y != b && y != b + Span(o) ==> y in m;
    }
  }

  lemma SplitTiles(m: Layout, b: int, o: nat, size: nat)
    requires MIN_ORDER <= o && Tiles(m) && b in m && m[b] == Block(o + 1, Live(size))
    ensures b + Span(o) !in m && Tiles(SplitAt(m, b, o, size))
  {
    HalvesFit(b, o);
    SplitGapless(m, b, o, size);
    SplitDisjoint(m, b, o, size);
  }

  lemma SplitSettled(m: Layout, b: int, o: nat, size: nat)
    requires MIN_ORDER <= o && Tiles(m) && Settled(m) && b in m && m[b] == Block(o + 1, Live(size))
    ensures Settled(SplitAt(m, b, o, size))
  {
    HalvesFit(b, o);
    var n := SplitAt(m, b, o, size);
    var c := b + Span(o);
    forall x ensures Unpaired(n, x) {
      if x in n && n[x].status.Free? && n[x].order < MAX_ORDER && x != c {
        assert x != b && Unpaired(m, x);
        BuddiesFit(x, n[x].order);
      }
    }
  }

  lemma SplitHeld(m: Layout, b: int, o: nat, size: nat)
    requires b in m && m[b].status.Live? && b + Span(o) !in m
    ensures Held(SplitAt(m, b, o, size)) - {b} == Held(m) - {b}
  {
  }

  /** Join a block being returned with its free buddy. */
  ghost function MergeAt(m: Layout, lo: int, o: nat, size: nat): Layout {
    (m - {lo + Span(o)})[lo := Block(o + 1, Live(size))]
  }

  lemma MergeGapless(m: Layout, lo: int, o: nat, size: nat)
    requires Gapless(m) && Disjoint(m) && Span(o + 1) == 2 * Span(o) && 0 <= lo
    requires lo in m && m[lo].order == o && lo + Span(o) in m && m[lo + Span(o)].order == o
    ensures Gapless(MergeAt(m, lo, o, size))
  {
    var n := MergeAt(m, lo, o, size);
    var hi := lo + Span(o);
    forall x ensures Continues(n, x) {
      assert Continues(m, x) && Continues(m, hi);
      if x in m && x != lo && x != hi && End(m, x) == hi {
        assert x < lo || lo < x;
      }
    }
  }

  lemma MergeDisjoint(m: Layout, lo: int, o: nat, size: nat)
    requires Disjoint(m) && Span(o + 1) == 2 * Span(o)
    requires lo in m && m[lo].order == o && lo + Span(o) in m && m[lo + Span(o)].order == o
    ensures Disjoint(MergeAt(m, lo, o, size))
  {
    var n := MergeAt(m, lo, o, size);
    var hi := lo + Span(o);
    assert End(n, lo) == End(m, hi);
    assert forall x :: x in n && x != lo ==> x in m && x != hi && End(n, x) == End(m, x);
  }

  lemma MergeTiles(m: Layout, lo: int, o: nat, size: nat)
    requires Tiles(m) && o < MAX_ORDER && Fits(lo, o + 1)
    requires lo in m && m[lo].order == o && lo + Span(o) in m && m[lo + Span(o)].order == o
    ensures Tiles(MergeAt(m, lo, o, size))
  {
    assert Span(o + 1) == 2 * Span(o);
    MergeGapless(m, lo, o, size);
    MergeDisjoint(m, lo, o, size);
    var n := MergeAt(m, lo, o, size);
    assert forall x :: x in n && x != lo ==> x in m && n[x] == m[x];
  }

  lemma MergeSettled(m: Layout, lo: int, o: nat, size: nat)
    requires Settled(m)
    ensures Settled(MergeAt(m, lo, o, size))
  {
    var n := MergeAt(m, lo, o, size);
    forall x ensures Unpaired(n, x) {
      assert Unpaired(m, x);
    }
  }

  ghost function Restatus(m: Layout, b: int, s: Status): Layout
    requires b in m
  {
    m[b := Block(m[b].order, s)]
  }

  lemma RestatusTiles(m: Layout, b: int, s: Status)
    requires Tiles(m) && b in m
    ensures Tiles(Restatus(m, b, s))
  {
    var n := Restatus(m, b, s);
    forall x ensures Continues(n, x) {
      assert Continues(m, x);
    }
  }

  lemma TakeSettled(m: Layout, b: int, size: nat)
    requires Settled(m) && b in m && m[b].status.Free?
    ensures Settled(Restatus(m, b, Live(size)))
    ensures Held(Restatus(m, b, Live(size))) - {b} == Held(m) && b !in Held(m)
  {
    var n := Restatus(m, b, Live(size));
    forall x ensures Unpaired(n, x) {
      assert Unpaired(m, x);
    }
  }

  lemma ReleaseSettled(m: Layout, b: int)
    requires AllFit(m) && Settled(m) && b in m
    requires m[b].order < MAX_ORDER ==> !FreeAt(m, Buddy(b, m[b].order), m[b].order)
    ensures Settled(Restatus(m, b, Free))
  {
    var n := Restatus(m, b, Free);
    forall x ensures Unpaired(n, x) {
      if x in n && n[x].status.Free? && n[x].order < MAX_ORDER {
        assert Unpaired(m, x);
        assert Fits(x, m[x].order);
        BuddiesFit(x, n[x].order);
      }
    }
  }

  lemma ReleaseHeld(m: Layout, b: int)
    requires b in m
    ensures Held(Restatus(m, b, Free)) == Held(m) - {b}
  {
  }

  // ---- Request sizes ----

  /** The block size needed before clamping, in 32-bit arithmetic. */
  function Total(size: nat): nat {
    (size + HEADER_SIZE) % ADDRESS_SPACE
  }

  /** The order a request is served at: the least that holds it, or the largest there is. */
  ghost predicate OrderFor(size: nat, o: int) {
    && MIN_ORDER <= o <= MAX_ORDER
    && (o == MAX_ORDER || Total(size) <= Pow2(o))
    && (o == MIN_ORDER || Pow2(o - 1) < Total(size))
  }

  /** There is one such order for every request. */
  lemma OrderUnique(size: nat, o: int, p: int)
    requires OrderFor(size, o) && OrderFor(size, p)
    ensures o == p
  {
    if o < p {
      Pow2Monotone(o, p - 1);
    } else if p < o {
      Pow2Monotone(p, o - 1);
    }
  }

  /**
   * The payload of the chosen block holds the request exactly when the request fits the whole heap:
   * larger ones are clamped to the largest order, and the largest wrap around to the smallest.
   */
  lemma PayloadSuffices(size: nat, o: int)
    requires size < ADDRESS_SPACE && OrderFor(size, o)
    ensures Pow2(o) - HEADER_SIZE >= size <==> size <= HEAP_SIZE - HEADER_SIZE
  {
    SpanTop();
    Pow2Monotone(o, MAX_ORDER);
  }

  /** No smaller order would do. */
  lemma OrderIsLeast(size: nat, o: int, p: nat)
    requires size <= HEAP_SIZE - HEADER_SIZE && OrderFor(size, o)
    requires MIN_ORDER <= p && Pow2(p) - HEADER_SIZE >= size
    ensures o <= p
  {
    if p < o {
      Pow2Monotone(p, o - 1);
    }
  }
}
