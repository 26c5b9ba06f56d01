/** NULL-ended doubly linked lists threaded through an array of links, with a head and a tail pointer. */
module Lists {
  import opened Seqs
  import opened Rings

  const NULL := -1

  /** The links of all elements, and the two ends of one list: `ends.next` its head, `ends.prev` its tail. */
  datatype Store = Store(links: seq<Link>, ends: Link)

  ghost predicate Known(l: seq<Link>, x: int) {
    x == NULL || InRange(l, x)
  }

  /** What a pointer leads to; from NULL one comes back to the ends of the list. */
  function Cell(s: Store, x: int): Link
    requires Known(s.links, x)
  {
    if x == NULL then s.ends else s.links[x]
  }

  function SetNext(s: Store, x: int, v: int): (r: Store)
    requires Known(s.links, x)
    ensures |r.links| == |s.links|
  {
    if x == NULL then s.(ends := s.ends.(next := v)) else s.(links := s.links[x := s.links[x].(next := v)])
  }

  function SetPrev(s: Store, x: int, v: int): (r: Store)
    requires Known(s.links, x)
    ensures |r.links| == |s.links|
  {
    if x == NULL then s.(ends := s.ends.(prev := v)) else s.(links := s.links[x := s.links[x].(prev := v)])
  }

  /** Position `j` of the way from the head pointer through `q` to NULL. */
  ghost function Pos(q: seq<int>, j: int): int {
    if 1 <= j <= |q| then q[j - 1] else NULL
  }

  ghost predicate Joined(s: Store, q: seq<int>, j: int) {
    var x, y := Pos(q, j), Pos(q, j + 1);
    Known(s.links, x) && Known(s.links, y) && Cell(s, x).next == y && Cell(s, y).prev == x
  }

  /** The links lead through exactly `q`, forwards and backwards. */
  ghost predicate List(s: Store, q: seq<int>) {
    && NULL !in q && Distinct(q)
    && forall j {:trigger Joined(s, q, j)} :: 0 <= j <= |q| ==> Joined(s, q, j)
  }

  lemma ListAt(s: Store, q: seq<int>, j: int)
    requires List(s, q) && 0 <= j <= |q| + 1
    ensures Known(s.links, Pos(q, j))
    ensures j <= |q| ==> Cell(s, Pos(q, j)).next == Pos(q, j + 1)
    ensures j > 0 ==> Cell(s, Pos(q, j)).prev == Pos(q, j - 1)
  {
    assert j <= |q| ==> Joined(s, q, j);
    assert j > 0 ==> Joined(s, q, j - 1);
  }

  /** Links of other elements do not matter to a list. */
  lemma ListFrame(s: Store, t: Store, q: seq<int>)
    requires List(s, q) && |t.links| == |s.links| && t.ends == s.ends
    requires forall x :: x in q && InRange(s.links, x) ==> t.links[x] == s.links[x]
    ensures List(t, q)
  {
    forall j | 0 <= j <= |q| ensures Joined(t, q, j) {
      assert Joined(s, q, j);
    }
  }

  // ---- Putting an element in ----

  /** `n` put between `x` and `y`. */
  function Linked(s: Store, n: int, x: int, y: int): (r: Store)
    requires InRange(s.links, n) && Known(s.links, x) && Known(s.links, y)
    ensures |r.links| == |s.links|
  {
    SetPrev(SetNext(s.(links := s.links[n := Link(y, x)]), x, n), y, n)
  }

  ghost function Spliced(q: seq<int>, i: int, n: int): seq<int>
    requires 0 <= i <= |q|
  {
    q[..i] + [n] + q[i..]
  }

  lemma LinkedHop(s: Store, q: seq<int>, i: int, n: int, j: int)
    requires List(s, q) && 0 <= i <= |q| && InRange(s.links, n) && n !in q && 0 <= j <= |q| + 1
    requires Known(s.links, Pos(q, i)) && Known(s.links, Pos(q, i + 1))
    ensures Joined(Linked(s, n, Pos(q, i), Pos(q, i + 1)), Spliced(q, i, n), j)
  {
    if j < i {
      assert Joined(s, q, j);
    } else if j > i + 1 {
      assert Joined(s, q, j - 1);
    }
  }

  lemma LinkedList(s: Store, q: seq<int>, i: int, n: int)
    requires List(s, q) && 0 <= i <= |q| && InRange(s.links, n) && n !in q
    ensures Known(s.links, Pos(q, i)) && Known(s.links, Pos(q, i + 1))
    ensures List(Linked(s, n, Pos(q, i), Pos(q, i + 1)), Spliced(q, i, n))
  {
    ListAt(s, q, i);
    ListAt(s, q, i + 1);
    var t, r := Linked(s, n, Pos(q, i), Pos(q, i + 1)), Spliced(q, i, n);
    forall j | 0 <= j <= |q| + 1 ensures Joined(t, r, j) {
      LinkedHop(s, q, i, n, j);
    }
  }

  lemma LinkedFrame(s: Store, q: seq<int>, i: int, n: int, z: int)
    requires 0 <= i <= |q| && InRange(s.links, n) && Known(s.links, Pos(q, i)) && Known(s.links, Pos(q, i + 1))
    requires InRange(s.links, z) && z != n && z !in q
    ensures Linked(s, n, Pos(q, i), Pos(q, i + 1)).links[z] == s.links[z]
  {
  }

  // ---- Taking an element out ----

  /** `n` bypassed by its neighbours and left with no links of its own. */
  function Unlinked(s: Store, n: int): (r: Store)
    requires InRange(s.links, n) && Known(s.links, s.links[n].next) && Known(s.links, s.links[n].prev)
    ensures |r.links| == |s.links|
  {
    var t := SetPrev(SetNext(s, s.links[n].prev, s.links[n].next), s.links[n].next, s.links[n].prev);
    t.(links := t.links[n := Link(NULL, NULL)])
  }

  lemma UnlinkedHop(s: Store, q: seq<int>, i: int, j: int)
    requires List(s, q) && 0 <= i < |q| && 0 <= j <= |q| - 1
    requires InRange(s.links, q[i]) && Known(s.links, s.links[q[i]].next) && Known(s.links, s.links[q[i]].prev)
    ensures Joined(Unlinked(s, q[i]), Without(q, i), j)
  {
    assert Joined(s, q, i) && Joined(s, q, i + 1);
    assert Joined(s, q, j) && Joined(s, q, j + 1);
  }

  lemma UnlinkedList(s: Store, q: seq<int>, i: int)
    requires List(s, q) && 0 <= i < |q|
    ensures InRange(s.links, q[i]) && Known(s.links, s.links[q[i]].next) && Known(s.links, s.links[q[i]].prev)
    ensures List(Unlinked(s, q[i]), Without(q, i))
  {
    assert Joined(s, q, i) && Joined(s, q, i + 1);
    var t, r := Unlinked(s, q[i]), Without(q, i);
    forall j | 0 <= j <= |q| - 1 ensures Joined(t, r, j) {
      UnlinkedHop(s, q, i, j);
    }
  }

  lemma UnlinkedFrame(s: Store, q: seq<int>, i: int, z: int)
    requires List(s, q) && 0 <= i < |q| && InRange(s.links, z) && z !in q
    requires InRange(s.links, q[i]) && Known(s.links, s.links[q[i]].next) && Known(s.links, s.links[q[i]].prev)
    ensures Unlinked(s, q[i]).links[z] == s.links[z]
  {
    assert Joined(s, q, i) && Joined(s, q, i + 1);
  }
}
