/** Circular doubly linked lists threaded through an array of links, each headed by a sentinel. */
module Rings {
  import opened Seqs

  datatype Link = Link(next: int, prev: int)

  /** Position `j` of the cycle that leaves the sentinel `s`, visits `r`, and returns to `s`. */
  ghost function At(s: int, r: seq<int>, j: int): int {
    if 1 <= j <= |r| then r[j - 1] else s
  }

  ghost predicate InRange(l: seq<Link>, i: int) {
    0 <= i < |l|
  }

  /** Positions `j` and `j + 1` of the cycle point at each other. */
  ghost predicate Hop(l: seq<Link>, s: int, r: seq<int>, j: int) {
    var x, y := At(s, r, j), At(s, r, j + 1);
    InRange(l, x) && InRange(l, y) && l[x].next == y && l[y].prev == x
  }

  /** The links from sentinel `s` form exactly the cycle through `r`. */
  ghost predicate Ring(l: seq<Link>, s: int, r: seq<int>) {
    && s !in r && Distinct(r)
    && forall j {:trigger Hop(l, s, r, j)} :: 0 <= j <= |r| ==> Hop(l, s, r, j)
  }

  lemma RingInRange(l: seq<Link>, s: int, r: seq<int>)
    requires Ring(l, s, r)
    ensures InRange(l, s) && InRange(l, l[s].next) && l[s].next == (if r == [] then s else r[0])
    ensures forall x :: x in r ==> InRange(l, x)
  {
    assert Hop(l, s, r, 0);
    forall x | x in r ensures InRange(l, x) {
      var k :| 0 <= k < |r| && r[k] == x;
      assert Hop(l, s, r, k + 1);
    }
  }

  /** Links outside a ring do not matter to it. */
  lemma RingFrame(l: seq<Link>, m: seq<Link>, s: int, r: seq<int>)
    requires Ring(l, s, r) && |m| == |l|
    requires InRange(l, s) ==> m[s] == l[s]
    requires forall x :: x in r && InRange(l, x) ==> m[x] == l[x]
    ensures Ring(m, s, r)
  {
    forall j | 0 <= j <= |r| ensures Hop(m, s, r, j) {
      assert Hop(l, s, r, j);
    }
  }

  /** The four pointer writes that put `n` right after `s`. */
  ghost function Added(l: seq<Link>, s: int, n: int): seq<Link>
    requires InRange(l, s) && InRange(l, n) && InRange(l, l[s].next) && n != s
  {
    var f := l[s].next;
    var a := l[n := Link(f, s)];
    var b := a[f := a[f].(prev := n)];
    b[s := b[s].(next := n)]
  }

  lemma AddedRing(l: seq<Link>, s: int, r: seq<int>, n: int)
    requires Ring(l, s, r) && InRange(l, n) && n != s && n !in r
    ensures InRange(l, s) && InRange(l, l[s].next)
    ensures Ring(Added(l, s, n), s, [n] + r)
    ensures forall x :: InRange(l, x) && x != s && x != n && x !in r ==> Added(l, s, n)[x] == l[x]
  {
    RingInRange(l, s, r);
    var m, q := Added(l, s, n), [n] + r;
    forall j | 0 <= j <= |q| ensures Hop(m, s, q, j) {
      if j >= 1 {
        assert Hop(l, s, r, j - 1);
      } else {
        assert Hop(l, s, r, 0);
      }
    }
  }

  /** The two pointer writes that take `n` out. */
  ghost function Deleted(l: seq<Link>, n: int): seq<Link>
    requires InRange(l, n) && InRange(l, l[n].prev) && InRange(l, l[n].next)
  {
    var a := l[l[n].prev := l[l[n].prev].(next := l[n].next)];
    a[a[n].next := a[a[n].next].(prev := a[n].prev)]
  }

  lemma DeletedRing(l: seq<Link>, s: int, r: seq<int>, i: nat)
    requires Ring(l, s, r) && i < |r|
    ensures var n := r[i];
            && InRange(l, n) && InRange(l, l[n].prev) && InRange(l, l[n].next)
            && Ring(Deleted(l, n), s, r[..i] + r[i + 1..])
            && (forall x :: InRange(l, x) && x != s && x !in r ==> Deleted(l, n)[x] == l[x])
  {
    var n, q := r[i], r[..i] + r[i + 1..];
    assert Hop(l, s, r, i) && Hop(l, s, r, i + 1);
    var m := Deleted(l, n);
    forall j | 0 <= j <= |q| ensures Hop(m, s, q, j) {
      DeletedHop(l, s, r, i, j);
    }
  }

  lemma DeletedHop(l: seq<Link>, s: int, r: seq<int>, i: nat, j: nat)
    requires Ring(l, s, r) && i < |r| && j <= |r| - 1
    requires var n := r[i]; InRange(l, n) && InRange(l, l[n].prev) && InRange(l, l[n].next)
    ensures Hop(Deleted(l, r[i]), s, r[..i] + r[i + 1..], j)
  {
    assert Hop(l, s, r, i) && Hop(l, s, r, i + 1);
    assert Hop(l, s, r, j) && Hop(l, s, r, j + 1);
  }
}
