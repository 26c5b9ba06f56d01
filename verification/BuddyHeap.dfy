/** The kernel heap of src/mm/heap.c: block headers and free lists kept in place, split and coalesced. */
module BuddyHeap {
  import opened Seqs
  import opened Bits
  import opened Rings
  import opened BuddyLayout

  const BUDDY_MAGIC := 0xBD00CAFE
  const NUM_ORDERS := MAX_ORDER - MIN_ORDER + 1

  datatype Header = Header(magic: int, order: int, isFree: bool)

  /** Free blocks and their orders. */
  type Stock = map<int, int>

  ghost function FreeOf(m: Layout): Stock {
    map b | b in m && m[b].status.Free? :: m[b].order
  }

  /** The list of order `k + MIN_ORDER` holds exactly the free blocks of that order. */
  ghost predicate Catalog(lists: seq<seq<int>>, f: Stock) {
    && |lists| == NUM_ORDERS
    && (forall k, b {:trigger b in lists[k]} :: 0 <= k < NUM_ORDERS && b in lists[k] ==>
          b in f && f[b] == k + MIN_ORDER && 0 <= b < GRANULES)
    && (forall b :: b in f ==> MIN_ORDER <= f[b] <= MAX_ORDER && b in lists[f[b] - MIN_ORDER])
  }

  /** Sentinel of list `k`; the nodes of free blocks are numbered by start granule, below every sentinel. */
  function Sentinel(k: int): int {
    GRANULES + k
  }

  ghost predicate Threaded(l: seq<Link>, lists: seq<seq<int>>) {
    && |l| == GRANULES + NUM_ORDERS && |lists| == NUM_ORDERS
    && forall k :: 0 <= k < NUM_ORDERS ==> Ring(l, Sentinel(k), lists[k])
  }

  /** Each block starts with a header that tells the truth; `limbo` is being moved and is still marked free. */
  ghost predicate Stamped(h: seq<Header>, m: Layout, limbo: int) {
    && |h| == GRANULES
    && forall b :: b in m ==>
      && 0 <= b < GRANULES && h[b].magic == BUDDY_MAGIC && h[b].order == m[b].order
      && h[b].isFree == (m[b].status.Free? || b == limbo)
  }

  // ---- Steps on the lists ----

  lemma Elsewhere(lists: seq<seq<int>>, f: Stock, k: nat, j: nat)
    requires Catalog(lists, f) && k < NUM_ORDERS && j < NUM_ORDERS && j != k
    ensures Sentinel(j) !in lists[k] && Sentinel(j) != Sentinel(k)
    ensures forall x :: x in lists[j] ==> x !in lists[k] && x != Sentinel(k)
  {
    assert forall x :: x in lists[j] ==> x in f && f[x] == j + MIN_ORDER && 0 <= x < GRANULES;
    assert forall x :: x in lists[k] ==> x in f && f[x] == k + MIN_ORDER && 0 <= x < GRANULES;
  }

  lemma PutThreaded(l: seq<Link>, lists: seq<seq<int>>, f: Stock, k: nat, b: int)
    requires Threaded(l, lists) && Catalog(lists, f) && k < NUM_ORDERS && b !in f && 0 <= b < GRANULES
    ensures InRange(l, Sentinel(k)) && InRange(l, l[Sentinel(k)].next)
    ensures Threaded(Added(l, Sentinel(k), b), lists[k := [b] + lists[k]])
  {
    var q := lists[k := [b] + lists[k]];
    AddedRing(l, Sentinel(k), lists[k], b);
    var m := Added(l, Sentinel(k), b);
    forall j | 0 <= j < NUM_ORDERS && j != k ensures Ring(m, Sentinel(j), q[j]) {
      Elsewhere(lists, f, k, j);
      RingFrame(l, m, Sentinel(j), lists[j]);
    }
  }

  lemma PutCatalog(lists: seq<seq<int>>, f: Stock, k: nat, b: int)
    requires Catalog(lists, f) && k < NUM_ORDERS && b !in f && 0 <= b < GRANULES
    ensures Catalog(lists[k := [b] + lists[k]], f[b := k + MIN_ORDER])
  {
  }

  lemma DropThreaded(l: seq<Link>, lists: seq<seq<int>>, f: Stock, k: nat, i: nat)
    requires Threaded(l, lists) && Catalog(lists, f) && k < NUM_ORDERS && i < |lists[k]|
    ensures var n := lists[k][i];
            && InRange(l, n) && InRange(l, l[n].prev) && InRange(l, l[n].next)
            && Threaded(Deleted(l, n), lists[k := Without(lists[k], i)])
  {
    var n := lists[k][i];
    var q := lists[k := Without(lists[k], i)];
    DeletedRing(l, Sentinel(k), lists[k], i);
    var m := Deleted(l, n);
    forall j | 0 <= j < NUM_ORDERS && j != k ensures Ring(m, Sentinel(j), q[j]) {
      Elsewhere(lists, f, k, j);
      RingFrame(l, m, Sentinel(j), lists[j]);
    }
  }

  lemma DropCatalog(lists: seq<seq<int>>, f: Stock, k: nat, i: nat)
    requires Catalog(lists, f) && k < NUM_ORDERS && i < |lists[k]| && Distinct(lists[k])
    ensures Catalog(lists[k := Without(lists[k], i)], f - {lists[k][i]})
  {
    var n, r := lists[k][i], Without(lists[k], i);
    forall b ensures b in r <==> b in lists[k] && b != n {
      WithoutMembers(lists[k], i, b);
    }
    var q := lists[k := r];
    forall j, b | 0 <= j < NUM_ORDERS && b in q[j]
      ensures b in f && b != n && f[b] == j + MIN_ORDER && 0 <= b < GRANULES
    {
      assert b in lists[j];
      assert n in lists[k];
    }
    forall b | b in f && b != n ensures MIN_ORDER <= f[b] <= MAX_ORDER && b in q[f[b] - MIN_ORDER] {
      assert b in lists[f[b] - MIN_ORDER];
    }
  }

  lemma FreeOfSplit(m: Layout, b: int, o: nat, size: nat)
    requires b in m && m[b].status.Live? && b + Span(o) !in m
    ensures FreeOf(SplitAt(m, b, o, size)) == FreeOf(m)[b + Span(o) := o] && b + Span(o) !in FreeOf(m)
  {
  }

  lemma FreeOfMerge(m: Layout, b: int, u: int, o: nat, size: nat)
    requires b in m && m[b].status.Live? && u in m && m[u].status.Free?
    requires u == b + Span(o) || b == u + Span(o)
    ensures FreeOf(MergeAt(m, if u < b then u else b, o, size)) == FreeOf(m) - {u}
  {
  }

  lemma SplitStamped(h: seq<Header>, m: Layout, b: int, o: nat, size: nat)
    requires Stamped(h, m, b) && b in m && m[b].status.Live? && 0 <= b + Span(o) < GRANULES && b + Span(o) !in m
    ensures Stamped(h[b + Span(o) := Header(BUDDY_MAGIC, o, true)][b := h[b].(order := o)], SplitAt(m, b, o, size), b)
  {
  }

  lemma SplitDone(h: seq<Header>, m: Layout, b: int, o: nat, size: nat)
    requires Tiles(m) && Settled(m) && Stamped(h, m, b) && MIN_ORDER <= o && b in m && m[b] == Block(o + 1, Live(size))
    ensures o < MAX_ORDER && 0 <= b < b + Span(o) < GRANULES && b + Span(o) !in FreeOf(m)
    ensures var n := SplitAt(m, b, o, size);
            && Tiles(n) && Settled(n) && b in n && n[b] == Block(o, Live(size)) && Held(n) - {b} == Held(m) - {b}
            && FreeOf(n) == FreeOf(m)[b + Span(o) := o]
            && Stamped(h[b + Span(o) := Header(BUDDY_MAGIC, o, true)][b := h[b].(order := o)], n, b)
  {
    assert Fits(b, o + 1) && Span(o + 1) == 2 * Span(o);
    SplitTiles(m, b, o, size);
    SplitSettled(m, b, o, size);
    SplitHeld(m, b, o, size);
    FreeOfSplit(m, b, o, size);
    SplitStamped(h, m, b, o, size);
  }

  lemma ReleaseStamped(h: seq<Header>, m: Layout, b: int)
    requires Stamped(h, m, b) && b in m
    ensures Stamped(h, Restatus(m, b, Free), -1)
  {
  }

  lemma Released(h: seq<Header>, m: Layout, b: int, o: nat)
    requires Tiles(m) && Settled(m) && Stamped(h, m, b) && b in m && m[b].status.Live? && m[b].order == o
    requires o < MAX_ORDER ==> !FreeAt(m, Buddy(b, o), o)
    ensures var n := Restatus(m, b, Free);
            && Tiles(n) && Settled(n) && Stamped(h, n, -1) && Held(n) == Held(m) - {b}
            && FreeOf(n) == FreeOf(m)[b := o]
    ensures b !in FreeOf(m) && 0 <= b < GRANULES && MIN_ORDER <= o <= MAX_ORDER
  {
    RestatusTiles(m, b, Free);
    ReleaseSettled(m, b);
    ReleaseHeld(m, b);
    ReleaseStamped(h, m, b);
    FreeOfRelease(m, b, o);
    assert Fits(b, o);
  }

  lemma FreeOfRelease(m: Layout, b: int, o: nat)
    requires b in m && m[b].status.Live? && m[b].order == o
    ensures FreeOf(Restatus(m, b, Free)) == FreeOf(m)[b := o]
  {
  }

  lemma StartLayout()
    ensures Tiles(map[0 := Block(MAX_ORDER, Free)]) && Settled(map[0 := Block(MAX_ORDER, Free)])
  {
    SpanTop();
    AlignedZero(MAX_ORDER - MIN_ORDER);
    var m: Layout := map[0 := Block(MAX_ORDER, Free)];
    assert forall x :: Continues(m, x) && Unpaired(m, x);
  }

  lemma EmptyThreaded(l: seq<Link>, lists: seq<seq<int>>)
    requires |l| == GRANULES + NUM_ORDERS && |lists| == NUM_ORDERS
    requires forall k :: 0 <= k < NUM_ORDERS ==> lists[k] == [] && l[Sentinel(k)] == Link(Sentinel(k), Sentinel(k))
    ensures Threaded(l, lists) && Catalog(lists, map[])
  {
    forall k | 0 <= k < NUM_ORDERS ensures Ring(l, Sentinel(k), lists[k]) {
      assert Hop(l, Sentinel(k), lists[k], 0);
    }
  }

  /** The block handed out for a pointer. */
  function StartOf(ptr: int): int {
    (ptr - HEADER_SIZE - KHEAP_START) / GRANULE
  }

  function PointerTo(b: int): int {
    KHEAP_START + b * GRANULE + HEADER_SIZE
  }

  /** `b` came from the smallest free block that could serve `size`, and nothing else held changed. */
  ghost predicate Granted(m: Layout, n: Layout, b: int, size: nat) {
    && b in n && n[b].status == Live(size) && OrderFor(size, n[b].order)
    && b !in Held(m) && Held(n) == Held(m)[b := n[b]]
    && BestFit(m, b, n[b].order)
  }

  ghost predicate BestFit(m: Layout, b: int, o: int) {
    && b in m && m[b].status.Free? && m[b].order >= o
    && forall c :: c in m && m[c].status.Free? && m[c].order >= o ==> m[c].order >= m[b].order
  }

  lemma FreeIsListed(lists: seq<seq<int>>, m: Layout, b: int)
    requires Catalog(lists, FreeOf(m)) && b in m && m[b].status.Free?
    ensures MIN_ORDER <= m[b].order <= MAX_ORDER && b in lists[m[b].order - MIN_ORDER]
  {
    assert b in FreeOf(m);
  }

  /** Empty lists from order `o` up mean no unused region that large, anywhere. */
  lemma NoneFree(lists: seq<seq<int>>, m: Layout, size: nat, o: int)
    requires Tiles(m) && Settled(m) && Catalog(lists, FreeOf(m)) && OrderFor(size, o)
    requires forall i :: o - MIN_ORDER <= i < NUM_ORDERS ==> lists[i] == []
    ensures forall p, r :: OrderFor(size, p) ==> !FreeRegion(m, r, p)
  {
    forall p, r | OrderFor(size, p) && FreeRegion(m, r, p) ensures false {
      OrderUnique(size, o, p);
      var b := FreeRegionInFreeBlock(m, r, p);
      FreeIsListed(lists, m, b);
    }
  }

  /** A free block large enough is an unused region of the order asked for, and the first list found is the best fit. */
  lemma ServedRegion(m: Layout, lists: seq<seq<int>>, b: int, o: int, size: nat)
    requires Tiles(m) && Catalog(lists, FreeOf(m)) && OrderFor(size, o)
    requires b in m && m[b].status.Free? && m[b].order >= o
    requires forall i :: o - MIN_ORDER <= i < m[b].order - MIN_ORDER ==> lists[i] == []
    ensures FreeRegion(m, b, o) && BestFit(m, b, o)
  {
    AlignedAt(b, o, m[b].order);
    SpanMonotone(o, m[b].order);
    forall c | c in m && m[c].status.Free? && m[c].order >= o ensures m[c].order >= m[b].order {
      FreeIsListed(lists, m, c);
    }
  }

  /** A live block's granules carry no list node. */
  lemma StoreOutside(m: Layout, l: seq<Link>, l': seq<Link>, lists: seq<seq<int>>, b: int, g: int)
    requires Tiles(m) && Threaded(l, lists) && Catalog(lists, FreeOf(m))
    requires b in m && m[b].status.Live? && b <= g < End(m, b)
    requires |l'| == |l| && forall i :: 0 <= i < |l| && i != g ==> l'[i] == l[i]
    ensures Threaded(l', lists)
  {
    assert g !in FreeOf(m);
    forall k | 0 <= k < NUM_ORDERS ensures Ring(l', Sentinel(k), lists[k]) {
      assert g !in lists[k];
      RingFrame(l, l', Sentinel(k), lists[k]);
    }
  }

  /** Every block held was cut to the order its size calls for. */
  ghost predicate Sized(h: Layout) {
    forall b :: b in h && h[b].status.Live? ==> h[b].status.size < ADDRESS_SPACE && OrderFor(h[b].status.size, h[b].order)
  }

  lemma PointerAligned(b: int)
    ensures PointerTo(b) % 16 == 0
  {
    assert PointerTo(b) == 16 * (KHEAP_START / 16 + 2 * b + 1);
  }

  /**
   * Payloads never meet: a held payload lies in the heap, 16-byte aligned, and ends before the header of
   * any later block; and it is as large as was asked for exactly when the request was not clamped.
   */
  lemma HeldPayloads(m: Layout, b: int)
    requires Tiles(m) && Sized(Held(m)) && b in Held(m)
    ensures PointerTo(b) % 16 == 0 && KHEAP_START < PointerTo(b)
    ensures PointerTo(b) + Pow2(m[b].order) - HEADER_SIZE <= KHEAP_START + HEAP_SIZE
    ensures forall c :: c in m && b < c ==>
              PointerTo(b) + Pow2(m[b].order) - HEADER_SIZE <= PointerTo(c) - HEADER_SIZE
    ensures Pow2(m[b].order) - HEADER_SIZE >= m[b].status.size <==> m[b].status.size <= HEAP_SIZE - HEADER_SIZE
  {
    assert Held(m)[b] == m[b] && Fits(b, m[b].order);
    PointerAligned(b);
    SpanIsPow2(m[b].order);
    PayloadSuffices(m[b].status.size, m[b].order);
  }

  /** The `size` bytes from `ptr` on lie behind the header of block `b` and in front of the block after it. */
  ghost predicate Payload(m: Layout, b: int, ptr: int, size: nat) {
    && b in m && m[b].order >= MIN_ORDER && ptr % 16 == 0
    && KHEAP_START + b * GRANULE + HEADER_SIZE <= ptr
    && ptr + size <= KHEAP_START + (b + Span(m[b].order)) * GRANULE <= KHEAP_START + HEAP_SIZE
  }

  lemma GrantedPayload(m: Layout, b: int, size: nat)
    requires Tiles(m) && b in m && OrderFor(size, m[b].order) && size <= HEAP_SIZE - HEADER_SIZE
    ensures Payload(m, b, PointerTo(b), size) && 0 <= b < GRANULES
  {
    assert Fits(b, m[b].order);
    PointerAligned(b);
    SpanIsPow2(m[b].order);
    PayloadSuffices(size, m[b].order);
  }

  /** A request for the whole 8 MB is granted a block whose payload is too small for it. */
  lemma ClampedRequest()
    ensures OrderFor(HEAP_SIZE, MAX_ORDER) && Pow2(MAX_ORDER) - HEADER_SIZE < HEAP_SIZE
  {
    SpanTop();
    assert Pow2(23) == 2 * Pow2(22);
  }

  /** Freeing what was just allocated restores the layout the allocation found, whatever was split. */
  lemma FreeUndoesMalloc(m: Layout, n: Layout, after: Layout, b: int, size: nat)
    requires Tiles(m) && Settled(m) && Granted(m, n, b, size)
    requires Tiles(after) && Settled(after) && Held(after) == Held(n) - {b}
    ensures after == m
  {
    assert Held(after) == Held(m);
    LayoutIsCanonical(m, after);
  }

  lemma GrantHeld(m: Layout, n: Layout, b: int, size: nat)
    requires b !in Held(m) && Held(n) - {b} == Held(m) && Sized(Held(m)) && size < ADDRESS_SPACE
    requires b in n && n[b].status == Live(size) && OrderFor(size, n[b].order) && BestFit(m, b, n[b].order)
    ensures Granted(m, n, b, size) && Sized(Held(n))
  {
    assert b in Held(n);
    assert Held(n) == Held(m)[b := n[b]];
  }

  datatype Outcome = Freed | Ignored | DoubleFree | BadMagic

  class Heap {
    const hdr: array<Header>
    const links: array<Link>
    ghost var blocks: Layout
    ghost var lists: seq<seq<int>>

    ghost predicate Inv(limbo: int)
      reads this, hdr, links
    {
      && Tiles(blocks) && Settled(blocks)
      && Stamped(hdr[..], blocks, limbo)
      && Threaded(links[..], lists) && Catalog(lists, FreeOf(blocks))
    }

    ghost predicate Valid()
      reads this, hdr, links
    {
      Inv(-1) && Sized(Held(blocks))
    }

    /** `fl_add` on the list of order index `k`. */
    method FlAdd(k: nat, n: int)
      requires k < NUM_ORDERS && 0 <= n < GRANULES && n !in FreeOf(blocks)
      requires Threaded(links[..], lists) && Catalog(lists, FreeOf(blocks))
      modifies links, this`lists
      ensures lists == old(lists)[k := [n] + old(lists)[k]]
      ensures Threaded(links[..], lists)
      ensures Catalog(lists, FreeOf(blocks)[n := k + MIN_ORDER])
    {
      var s := Sentinel(k);
      ghost var l := links[..];
      PutThreaded(l, lists, FreeOf(blocks), k, n);
      PutCatalog(lists, FreeOf(blocks), k, n);
      links[n] := Link(links[s].next, s);
      var f := links[s].next;
      links[f] := links[f].(prev := n);
      links[s] := links[s].(next := n);
      assert links[..] == Added(l, s, n);
      lists := lists[k := [n] + lists[k]];
    }

    /** `fl_del` of a free block, wherever it sits in its list. */
    method FlDel(n: int)
      requires n in FreeOf(blocks)
      requires Threaded(links[..], lists) && Catalog(lists, FreeOf(blocks))
      modifies links, this`lists
      ensures Threaded(links[..], lists)
      ensures Catalog(lists, FreeOf(blocks) - {n})
    {
      ghost var k := FreeOf(blocks)[n] - MIN_ORDER;
      ghost var i :| 0 <= i < |lists[k]| && lists[k][i] == n;
      ghost var l := links[..];
      DropThreaded(l, lists, FreeOf(blocks), k, i);
      DropCatalog(lists, FreeOf(blocks), k, i);
      var p := links[n].prev;
      links[p] := links[p].(next := links[n].next);
      var x := links[n].next;
      links[x] := links[x].(prev := links[n].prev);
      assert links[..] == Deleted(l, n);
      lists := lists[k := Without(lists[k], i)];
    }

    /** `kheap_init`. */
    constructor ()
      ensures Valid() && blocks == map[0 := Block(MAX_ORDER, Free)]
      ensures fresh(hdr) && fresh(links)
    {
      hdr := new Header[GRANULES];
      links := new Link[GRANULES + NUM_ORDERS];
      new;
      for i := 0 to NUM_ORDERS
        invariant forall k :: 0 <= k < i ==> links[Sentinel(k)] == Link(Sentinel(k), Sentinel(k))
      {
        links[Sentinel(i)] := Link(Sentinel(i), Sentinel(i));
      }
      blocks := map[];
      lists := seq(NUM_ORDERS, _ => []);
      EmptyThreaded(links[..], lists);
      assert FreeOf(blocks) == map[];
      hdr[0] := Header(BUDDY_MAGIC, MAX_ORDER, true);
      FlAdd(MAX_ORDER - MIN_ORDER, 0);
      blocks := map[0 := Block(MAX_ORDER, Free)];
      assert FreeOf(blocks) == map[0 := MAX_ORDER];
      StartLayout();
    }

    method SizeToOrder(size: nat) returns (order: nat)
      ensures OrderFor(size, order)
    {
      var total := (size + HEADER_SIZE) % ADDRESS_SPACE;
      order := MIN_ORDER;
      while Pow2(order) < total && order < MAX_ORDER
        invariant MIN_ORDER <= order <= MAX_ORDER
        invariant order == MIN_ORDER || Pow2(order - 1) < total
      {
        order := order + 1;
      }
    }

    /** `fl_empty` on the list of order index `k`. */
    method FlEmpty(k: nat) returns (e: bool)
      requires k < NUM_ORDERS && Threaded(links[..], lists)
      ensures e <==> lists[k] == []
      ensures !e ==> links[Sentinel(k)].next == lists[k][0]
    {
      RingInRange(links[..], Sentinel(k), lists[k]);
      e := links[Sentinel(k)].next == Sentinel(k);
    }

    method SetHeader(g: int, h: Header)
      requires 0 <= g < hdr.Length
      modifies hdr
      ensures hdr[..] == old(hdr[..])[g := h]
    {
      hdr[g] := h;
    }

    /** One turn of the split loop: the upper half of `b` becomes a free block of order `k`. */
    method SplitOff(b: int, k: nat, ghost size: nat)
      requires Inv(b) && MIN_ORDER <= k && b in blocks && blocks[b] == Block(k + 1, Live(size))
      modifies this, hdr, links
      ensures Inv(b) && b in blocks && blocks[b] == Block(k, Live(size))
      ensures Held(blocks) - {b} == old(Held(blocks)) - {b}
    {
      var c := b + Span(k);
      SplitDone(hdr[..], blocks, b, k, size);
      SetHeader(c, Header(BUDDY_MAGIC, k, true));
      FlAdd(k - MIN_ORDER, c);
      SetHeader(b, hdr[b].(order := k));
      blocks := SplitAt(blocks, b, k, size);
    }

    /** Pop the first free block of order index `k`; from here on it counts as held by the caller. */
    method Pop(k: nat, ghost size: nat) returns (b: int)
      requires Inv(-1) && k < NUM_ORDERS && lists[k] != []
      modifies this, links
      ensures Inv(b) && b in blocks && blocks[b] == Block(k + MIN_ORDER, Live(size))
      ensures b in old(blocks) && old(blocks)[b] == Block(k + MIN_ORDER, Free)
      ensures b !in old(Held(blocks)) && Held(blocks) - {b} == old(Held(blocks))
      ensures hdr[b].magic == BUDDY_MAGIC && hdr[b].isFree
    {
      var e := FlEmpty(k);
      b := links[Sentinel(k)].next;
      RingInRange(links[..], Sentinel(k), lists[k]);
      assert lists[k][0] in lists[k];
      FlDel(b);
      assert FreeOf(blocks) - {b} == FreeOf(Restatus(blocks, b, Live(size)));
      RestatusTiles(blocks, b, Live(size));
      TakeSettled(blocks, b, size);
      blocks := Restatus(blocks, b, Live(size));
    }

    /** Take the first block of order `k` and split it down to `order`. */
    method Serve(size: nat, order: nat, k0: nat) returns (ptr: int)
      requires Valid() && size < ADDRESS_SPACE && OrderFor(size, order) && order <= k0 <= MAX_ORDER
      requires lists[k0 - MIN_ORDER] != []
      requires forall i :: order - MIN_ORDER <= i < k0 - MIN_ORDER ==> lists[i] == []
      modifies this, hdr, links
      ensures Valid() && ptr > 0 && ptr == PointerTo(StartOf(ptr)) && 0 <= StartOf(ptr) < GRANULES
      ensures Granted(old(blocks), blocks, StartOf(ptr), size)
      ensures FreeRegion(old(blocks), StartOf(ptr), order)
    {
      var k := k0;
      var blk := Pop(k - MIN_ORDER, size);
      ServedRegion(old(blocks), old(lists), blk, order, size);
      if hdr[blk].magic != BUDDY_MAGIC || !hdr[blk].isFree {
        assert false;
      } else {
        while k > order
          invariant order <= k <= MAX_ORDER
          invariant Inv(blk) && blk in blocks && blocks[blk] == Block(k, Live(size))
          invariant Held(blocks) - {blk} == old(Held(blocks))
        {
          k := k - 1;
          SplitOff(blk, k, size);
        }
        SetHeader(blk, hdr[blk].(isFree := false));
        GrantHeld(old(blocks), blocks, blk, size);
        assert Fits(blk, order);
        ptr := PointerTo(blk);
      }
    }

    method Kmalloc(size: nat) returns (ptr: int)
      requires Valid() && size < ADDRESS_SPACE
      modifies this, hdr, links
      ensures Valid()
      ensures ptr == 0 <==> size == 0 || forall o, r :: OrderFor(size, o) ==> !FreeRegion(old(blocks), r, o)
      ensures ptr == 0 ==> blocks == old(blocks)
      ensures ptr != 0 ==> Granted(old(blocks), blocks, StartOf(ptr), size)
      ensures ptr != 0 ==> ptr == PointerTo(StartOf(ptr)) && 0 <= StartOf(ptr) < GRANULES
      ensures ptr != 0 && size <= HEAP_SIZE - HEADER_SIZE ==> Payload(blocks, StartOf(ptr), ptr, size)
    {
      if size == 0 {
        return 0;
      }
      var order := SizeToOrder(size);
      var k := order;
      while k <= MAX_ORDER
        invariant order <= k <= MAX_ORDER + 1
        invariant forall i :: order - MIN_ORDER <= i < k - MIN_ORDER ==> lists[i] == []
        invariant Valid()
        modifies {}
      {
        var empty := FlEmpty(k - MIN_ORDER);
        if !empty {
          break;
        }
        k := k + 1;
      }
      if k > MAX_ORDER {
        NoneFree(lists, blocks, size, order);
        return 0;
      }
      ptr := Serve(size, order, k);
      if size <= HEAP_SIZE - HEADER_SIZE {
        GrantedPayload(blocks, StartOf(ptr), size);
      }
    }

    /** One turn of the coalescing loop: `b` absorbs its free buddy `u` and the lower of the two carries on. */
    method Absorb(b: int, u: int, o: nat, ghost size: nat) returns (lo: int)
      requires Inv(b) && b in blocks && blocks[b] == Block(o, Live(size)) && o < MAX_ORDER
      requires u == Buddy(b, o) && u in blocks && blocks[u] == Block(o, Free)
      modifies this, hdr, links
      ensures lo == (if u < b then u else b)
      ensures Inv(lo) && lo in blocks && blocks[lo] == Block(o + 1, Live(size))
      ensures Held(blocks) - {lo} == old(Held(blocks)) - {b}
    {
      BuddiesFit(b, o);
      FlDel(u);
      lo := b;
      if u < b {
        lo := u;
      }
      SetHeader(lo, hdr[lo].(order := o + 1));
      MergeTiles(blocks, lo, o, size);
      MergeSettled(blocks, lo, o, size);
      FreeOfMerge(blocks, b, u, o, size);
      blocks := MergeAt(blocks, lo, o, size);
    }

    /** Put the merged block on the list of its order. */
    method Release(b: int, o: nat)
      requires Inv(b) && b in blocks && blocks[b].status.Live? && blocks[b].order == o
      requires o < MAX_ORDER ==> !FreeAt(blocks, Buddy(b, o), o)
      modifies this, links
      ensures Inv(-1) && Held(blocks) == old(Held(blocks)) - {b}
    {
      Released(hdr[..], blocks, b, o);
      FlAdd(o - MIN_ORDER, b);
      blocks := Restatus(blocks, b, Free);
    }

    /** Give back the block `b`, joined with its buddies as far as they are free. */
    method Return(b: int)
      requires Valid() && b in Held(blocks)
      modifies this, hdr, links
      ensures Valid() && Held(blocks) == old(Held(blocks)) - {b}
    {
      var blk := b;
      hdr[blk] := hdr[blk].(isFree := true);
      var order := hdr[blk].order;
      ghost var size := blocks[blk].status.size;
      while order < MAX_ORDER
        invariant MIN_ORDER <= order <= MAX_ORDER
        invariant Inv(blk) && blk in blocks && blocks[blk] == Block(order, Live(size))
        invariant Held(blocks) - {blk} == old(Held(blocks)) - {b}
      {
        BuddyOfIsBuddy(blk, order);
        BuddyIsBlock(blocks, blk);
        var buddy := BuddyOf(blk, order);
        if buddy < 0 {
          assert false;
          break;
        }
        if hdr[buddy].magic != BUDDY_MAGIC || !hdr[buddy].isFree || hdr[buddy].order != order {
          break;
        }
        blk := Absorb(blk, buddy, order, size);
        order := order + 1;
      }
      Release(blk, order);
    }

    /**
     * A pointer to a block held is given back; one to a free block, or to no block at all, is detected and
     * changes nothing.
     */
    method Kfree(ptr: int) returns (r: Outcome)
      requires Valid()
      requires ptr == 0 || (0 <= StartOf(ptr) < GRANULES && ptr == PointerTo(StartOf(ptr)))
      requires ptr == 0 || StartOf(ptr) in blocks || hdr[StartOf(ptr)].magic != BUDDY_MAGIC
      modifies this, hdr, links
      ensures Valid()
      ensures r == Freed <==> ptr != 0 && StartOf(ptr) in old(Held(blocks))
      ensures r == DoubleFree <==> ptr != 0 && StartOf(ptr) in old(blocks) && old(blocks)[StartOf(ptr)].status.Free?
      ensures r == BadMagic <==> ptr != 0 && StartOf(ptr) !in old(blocks)
      ensures r == Ignored <==> ptr == 0
      ensures r == Freed ==> Held(blocks) == old(Held(blocks)) - {StartOf(ptr)}
      ensures r != Freed ==> blocks == old(blocks)
    {
      if ptr == 0 {
        return Ignored;
      }
      var blk := StartOf(ptr);
      if hdr[blk].magic != BUDDY_MAGIC {
        return BadMagic;
      }
      if hdr[blk].isFree {
        return DoubleFree;
      }
      Return(blk);
      r := Freed;
    }

    /**
     * The owner of a block writes anything anywhere in its payload: over the link words of its first
     * granule, or over whatever old headers and links lie in the granules after it.
     */
    method Store(b: int, g: int, h: Header, k: Link)
      requires Valid() && b in Held(blocks) && b <= g < b + Span(blocks[b].order)
      modifies hdr, links
      ensures Valid()
    {
      ghost var l := links[..];
      if g != b {
        hdr[g] := h;
      }
      links[g] := k;
      StoreOutside(blocks, l, links[..], lists, b, g);
    }
  }

  /** What was allocated can be freed by the pointer that was handed out, and leaves no trace. */
  method MallocThenFree(heap: Heap, size: nat) returns (ptr: int, r: Outcome)
    requires heap.Valid() && size < ADDRESS_SPACE
    modifies heap, heap.hdr, heap.links
    ensures heap.Valid() && heap.blocks == old(heap.blocks)
    ensures r == if ptr == 0 then Ignored else Freed
    ensures ptr == 0 <==> size == 0 || forall o, b :: OrderFor(size, o) ==> !FreeRegion(old(heap.blocks), b, o)
  {
    ghost var m := heap.blocks;
    ptr := heap.Kmalloc(size);
    ghost var n := heap.blocks;
    r := heap.Kfree(ptr);
    if ptr != 0 {
      FreeUndoesMalloc(m, n, heap.blocks, StartOf(ptr), size);
    }
  }
}
