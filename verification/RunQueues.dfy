/**
 * The run queues of src/kernel/scheduler.c: for every CPU two arrays of 32 lists each, one list per priority,
 * with a bitmap of the lists that are not empty. List `32 * r + j` is priority `j` of array `r`, and the
 * arrays of CPU `c` are `2 * c` and `2 * c + 1`.
 */
module RunQueues {
  import opened Seqs
  import opened Bits
  import opened Rings
  import opened Lists

  const PRIOS := 32

  // ---- What the queues mean ----

  ghost predicate Chained(links: seq<Link>, ends: seq<Link>, lists: seq<seq<int>>) {
    |ends| == |lists| && forall k :: 0 <= k < |lists| ==> List(Store(links, ends[k]), lists[k])
  }

  /** `home[x]` is the one list process `x` is on, NULL if it is on none. */
  ghost predicate Homed(lists: seq<seq<int>>, home: seq<int>) {
    forall k, x {:trigger x in lists[k]} :: 0 <= k < |lists| ==> (x in lists[k] <==> 0 <= x < |home| && home[x] == k)
  }

  ghost predicate RowMarked(bits: nat, lists: seq<seq<int>>, r: int)
    requires 0 <= r && 32 * r + 32 <= |lists|
  {
    forall j: nat :: Bit(bits, j) <==> j < 32 && lists[32 * r + j] != []
  }

  /** Bit `j` is set iff list `j` is not empty. */
  ghost predicate Marked(bitmap: seq<nat>, lists: seq<seq<int>>) {
    |lists| == 32 * |bitmap| && forall r :: 0 <= r < |bitmap| ==> RowMarked(bitmap[r], lists, r)
  }

  // ---- A process put at the end of a list ----

  lemma ChainedAfterLink(links: seq<Link>, ends: seq<Link>, lists: seq<seq<int>>, home: seq<int>, k: int, x: int, t: Store)
    requires Chained(links, ends, lists) && Homed(lists, home) && |home| == |links|
    requires 0 <= k < |lists| && 0 <= x < |home| && home[x] == NULL
    requires Known(links, ends[k].prev) && t == Linked(Store(links, ends[k]), x, ends[k].prev, NULL)
    ensures Chained(t.links, ends[k := t.ends], lists[k := lists[k] + [x]])
  {
    var s, q := Store(links, ends[k]), lists[k];
    ListAt(s, q, |q| + 1);
    LinkedList(s, q, |q|, x);
    assert Spliced(q, |q|, x) == q + [x];
    forall m | 0 <= m < |lists| && m != k ensures List(Store(t.links, ends[m]), lists[m]) {
      forall y | y in lists[m] && InRange(links, y) ensures t.links[y] == links[y] {
        LinkedFrame(s, q, |q|, x, y);
      }
      ListFrame(Store(links, ends[m]), Store(t.links, ends[m]), lists[m]);
    }
  }

  lemma HomedAfterLink(lists: seq<seq<int>>, home: seq<int>, k: int, x: int)
    requires Homed(lists, home) && 0 <= k < |lists| && 0 <= x < |home| && home[x] == NULL
    ensures Homed(lists[k := lists[k] + [x]], home[x := k])
  {
  }

  lemma RowAfterSet(bits: nat, lists: seq<seq<int>>, r: int, k: int, q: seq<int>)
    requires 0 <= r && 32 * r + 32 <= |lists| && RowMarked(bits, lists, r) && 0 <= k < |lists| && q != []
    ensures k / 32 == r ==> RowMarked(SetBit(bits, k % 32), lists[k := q], r)
    ensures k / 32 != r ==> RowMarked(bits, lists[k := q], r)
  {
    if k / 32 == r {
      forall j: nat ensures Bit(SetBit(bits, k % 32), j) <==> j < 32 && lists[k := q][32 * r + j] != [] {
        SetBitIs(bits, k % 32, j);
      }
    }
  }

  lemma MarkedAfterSet(bitmap: seq<nat>, lists: seq<seq<int>>, k: int, q: seq<int>)
    requires Marked(bitmap, lists) && 0 <= k < |lists| && q != []
    ensures Marked(bitmap[k / 32 := SetBit(bitmap[k / 32], k % 32)], lists[k := q])
  {
    var b := bitmap[k / 32 := SetBit(bitmap[k / 32], k % 32)];
    forall r | 0 <= r < |bitmap| ensures RowMarked(b[r], lists[k := q], r) {
      RowAfterSet(bitmap[r], lists, r, k, q);
    }
  }

  // ---- A process taken out of a list ----

  lemma ChainedAfterUnlink(links: seq<Link>, ends: seq<Link>, lists: seq<seq<int>>, home: seq<int>, k: int, i: int, t: Store)
    requires Chained(links, ends, lists) && Homed(lists, home) && |home| == |links|
    requires 0 <= k < |lists| && 0 <= i < |lists[k]|
    requires var x := lists[k][i]; InRange(links, x) && Known(links, links[x].next) && Known(links, links[x].prev)
                                   && t == Unlinked(Store(links, ends[k]), x)
    ensures Chained(t.links, ends[k := t.ends], lists[k := Without(lists[k], i)])
  {
    var s, q := Store(links, ends[k]), lists[k];
    UnlinkedList(s, q, i);
    forall m | 0 <= m < |lists| && m != k ensures List(Store(t.links, ends[m]), lists[m]) {
      forall y | y in lists[m] && InRange(links, y) ensures t.links[y] == links[y] {
        UnlinkedFrame(s, q, i, y);
      }
      ListFrame(Store(links, ends[m]), Store(t.links, ends[m]), lists[m]);
    }
  }

  lemma HomedAfterUnlink(lists: seq<seq<int>>, home: seq<int>, k: int, i: int)
    requires Homed(lists, home) && 0 <= k < |lists| && 0 <= i < |lists[k]| && Distinct(lists[k])
    ensures var x := lists[k][i];
            0 <= x < |home| && home[x] == k && Homed(lists[k := Without(lists[k], i)], home[x := NULL])
  {
    var x := lists[k][i];
    assert x in lists[k];
    forall y ensures y in Without(lists[k], i) <==> y in lists[k] && y != x {
      WithoutMembers(lists[k], i, y);
    }
  }

  lemma RowAfterChange(bits: nat, lists: seq<seq<int>>, r: int, k: int, q: seq<int>)
    requires 0 <= r && 32 * r + 32 <= |lists| && RowMarked(bits, lists, r) && 0 <= k < |lists| && lists[k] != []
    ensures k / 32 == r && q == [] ==> RowMarked(ClearBit(bits, k % 32), lists[k := q], r)
    ensures k / 32 != r || q != [] ==> RowMarked(bits, lists[k := q], r)
  {
    if k / 32 == r && q == [] {
      forall j: nat ensures Bit(ClearBit(bits, k % 32), j) <==> j < 32 && lists[k := q][32 * r + j] != [] {
        ClearBitIs(bits, k % 32, j);
      }
    }
  }

  lemma MarkedAfterClear(bitmap: seq<nat>, lists: seq<seq<int>>, k: int, q: seq<int>)
    requires Marked(bitmap, lists) && 0 <= k < |lists| && lists[k] != []
    ensures q == [] ==> Marked(bitmap[k / 32 := ClearBit(bitmap[k / 32], k % 32)], lists[k := q])
    ensures q != [] ==> Marked(bitmap, lists[k := q])
  {
    var b := if q == [] then bitmap[k / 32 := ClearBit(bitmap[k / 32], k % 32)] else bitmap;
    forall r | 0 <= r < |bitmap| ensures RowMarked(b[r], lists[k := q], r) {
      RowAfterChange(bitmap[r], lists, r, k, q);
    }
  }

  // ---- The lowest set bit ----

  /** Number of trailing zero bits. */
  function TrailingZeros(v: nat): nat
    requires v > 0
  {
    if v % 2 == 1 then 0 else 1 + TrailingZeros(v / 2)
  }

  lemma {:induction false} LowestBit(v: nat, j: nat)
    requires v > 0
    ensures Bit(v, TrailingZeros(v)) && (j < TrailingZeros(v) ==> !Bit(v, j))
  {
    if v % 2 == 0 {
      LowestBit(v / 2, if j == 0 then 0 else j - 1);
    }
  }

  lemma {:induction false} NoBits(j: nat)
    ensures !Bit(0, j)
  {
    if j > 0 {
      NoBits(j - 1);
    }
  }
}
