/** The sleep queue and the alarm queue of src/kernel/scheduler.c: processes sorted by the tick they wait for. */
module TimerQueue {
  import opened Seqs
  import opened Rings
  import opened Lists

  ghost predicate Sorted(order: seq<int>, due: seq<nat>) {
    && (forall i :: 0 <= i < |order| ==> 0 <= order[i] < |due|)
    && forall i, j :: 0 <= i < j < |order| ==> due[order[i]] <= due[order[j]]
  }

  /** Everything before `i` is due before `at`, everything from `i` on is not. */
  ghost predicate Cut(order: seq<int>, due: seq<nat>, i: int, at: nat) {
    && 0 <= i <= |order| && (forall j :: 0 <= j < |order| ==> 0 <= order[j] < |due|)
    && (forall j :: 0 <= j < i ==> due[order[j]] < at)
    && (forall j :: i <= j < |order| ==> due[order[j]] >= at)
  }

  lemma SplicedSorted(order: seq<int>, due: seq<nat>, i: int, p: int)
    requires Sorted(order, due) && 0 <= p < |due| && Cut(order, due, i, due[p])
    ensures Sorted(Spliced(order, i, p), due)
  {
  }

  /** As `Sorted`, but wherever `x` stands, its tick does not matter. */
  ghost predicate SortedBut(order: seq<int>, due: seq<nat>, x: int) {
    && (forall i :: 0 <= i < |order| ==> 0 <= order[i] < |due|)
    && forall i, j :: 0 <= i < j < |order| && order[i] != x && order[j] != x ==> due[order[i]] <= due[order[j]]
  }

  lemma SortedElsewhere(order: seq<int>, due: seq<nat>, due': seq<nat>, x: int)
    requires Sorted(order, due) && |due'| == |due| && forall y :: 0 <= y < |due| && y != x ==> due'[y] == due[y]
    ensures SortedBut(order, due', x)
  {
  }

  lemma WithoutSorted(order: seq<int>, due: seq<nat>, i: int)
    requires Distinct(order) && 0 <= i < |order| && SortedBut(order, due, order[i])
    ensures Sorted(Without(order, i), due)
  {
  }

  lemma RestSorted(order: seq<int>, due: seq<nat>, i: int)
    requires Sorted(order, due) && Distinct(order) && 0 <= i < |order|
    ensures Sorted(Without(order, i), due)
  {
    SortedElsewhere(order, due, due, order[i]);
    WithoutSorted(order, due, i);
  }

  lemma HeadAndRest(q: seq<int>)
    requires q != []
    ensures q == [q[0]] + Without(q, 0)
  {
  }

  class Queue {
    var links: seq<Link>
    var head: int
    var due: seq<nat>
    var queued: seq<bool>
    ghost var tail: int
    ghost var order: seq<int>

    ghost function Ends(): Store
      reads this
    {
      Store(links, Link(head, tail))
    }

    /** The pointers describe `order`, and the flags say who is in it. */
    ghost predicate Chained()
      reads this
    {
      && |links| == |due| == |queued| && List(Ends(), order)
      && forall x :: 0 <= x < |queued| ==> (queued[x] <==> x in order)
    }

    ghost predicate Valid()
      reads this
    {
      Chained() && Sorted(order, due)
    }

    constructor (n: nat)
      ensures Valid() && order == [] && |due| == n
    {
      links := seq(n, _ => Link(NULL, NULL));
      head, tail, order := NULL, NULL, [];
      due := seq(n, _ => 0);
      queued := seq(n, _ => false);
    }

    /** The walk that looks for the place of a process due at `at`, starting from a head due earlier. */
    method FindPlace(at: nat) returns (cur: int, ghost i: int)
      requires Valid() && order != [] && due[order[0]] < at
      ensures 0 < i <= |order| && cur == order[i - 1] && Cut(order, due, i, at)
    {
      ListAt(Ends(), order, 0);
      cur, i := head, 1;
      ListAt(Ends(), order, i);
      while links[cur].next != NULL && due[links[cur].next] < at
        invariant 0 < i <= |order| && cur == order[i - 1] && InRange(links, cur)
        invariant links[cur].next == Pos(order, i + 1)
        invariant forall j :: 0 <= j < i ==> due[order[j]] < at
        decreases |order| - i
      {
        cur, i := links[cur].next, i + 1;
        ListAt(Ends(), order, i);
      }
    }

    /** The pointer writes that put `p` behind `x`, or at the head if that is NULL. */
    method PutBehind(p: int, x: int, ghost i: int)
      requires Chained() && 0 <= p < |queued| && p !in order && 0 <= i <= |order| && x == Pos(order, i)
      modifies this`links, this`head, this`tail
      ensures List(Ends(), Spliced(order, i, p)) && |links| == old(|links|)
    {
      ghost var s := Ends();
      LinkedList(s, order, i, p);
      ListAt(s, order, i);
      var y := if x == NULL then head else links[x].next;
      links := links[p := Link(y, x)];
      if x == NULL {
        head := p;
      } else {
        links := links[x := links[x].(next := p)];
      }
      if y != NULL {
        links := links[y := links[y].(prev := p)];
      } else {
        tail := p;
      }
    }

    /** The process lands behind all that are due earlier and before all the others. */
    method Insert(p: int) returns (ghost i: int)
      requires Valid() && 0 <= p < |queued| && !queued[p]
      modifies this`links, this`head, this`tail, this`queued, this`order
      ensures Valid() && Cut(old(order), due, i, due[p]) && order == Spliced(old(order), i, p)
      ensures queued == old(queued)[p := true] && forall x :: x in order <==> x in old(order) || x == p
    {
      ListAt(Ends(), order, 0);
      ListAt(Ends(), order, 1);
      var x := NULL;
      i := 0;
      if head != NULL && due[p] > due[head] {
        x, i := FindPlace(due[p]);
      }
      SplicedSorted(order, due, i, p);
      PutBehind(p, x, i);
      queued := queued[p := true];
      order := Spliced(order, i, p);
    }

    ghost function Place(p: int): (i: int)
      requires p in order
      reads this
      ensures 0 <= i < |order| && order[i] == p
    {
      var i :| 0 <= i < |order| && order[i] == p;
      i
    }

    /** The pointer writes that take out the element at `i`. */
    method Bypass(p: int, ghost i: int)
      requires Chained() && 0 <= i < |order| && order[i] == p
      modifies this`links, this`head, this`tail
      ensures List(Ends(), Without(order, i)) && |links| == old(|links|)
    {
      UnlinkedList(Ends(), order, i);
      var x, y := links[p].prev, links[p].next;
      if x != NULL {
        links := links[x := links[x].(next := y)];
      } else {
        head := y;
      }
      if y != NULL {
        links := links[y := links[y].(prev := x)];
      } else {
        tail := x;
      }
      links := links[p := Link(NULL, NULL)];
    }

    method TakeOut(p: int, ghost i: int)
      requires Chained() && 0 <= i < |order| && order[i] == p && 0 <= p < |queued|
      modifies this`links, this`head, this`tail, this`queued, this`order
      ensures Chained() && queued == old(queued)[p := false] && order == Without(old(order), i)
    {
      ghost var q := order;
      Bypass(p, i);
      queued := queued[p := false];
      order := Without(order, i);
      forall x ensures x in order <==> x in q && x != p {
        WithoutMembers(q, i, x);
      }
    }

    /** Takes a process out if it is in; what stays keeps its order. */
    method Remove(p: int)
      requires Chained() && 0 <= p < |queued|
      modifies this`links, this`head, this`tail, this`queued, this`order
      ensures Chained() && queued == old(queued)[p := false]
      ensures forall x :: x in order <==> x in old(order) && x != p
      ensures p !in old(order) ==> order == old(order)
      ensures p in old(order) ==> order == Without(old(order), old(Place(p)))
    {
      if !queued[p] {
        return;
      }
      ghost var q, i := order, Place(p);
      TakeOut(p, i);
      forall x ensures x in order <==> x in q && x != p {
        WithoutMembers(q, i, x);
      }
    }

    /** A process put to sleep until `at`, wherever it was queued before. */
    method Arm(p: int, at: nat)
      requires Valid() && 0 <= p < |queued|
      modifies this
      ensures Valid() && due == old(due)[p := at] && queued == old(queued)[p := true]
      ensures forall x :: x in order <==> x in old(order) || x == p
    {
      ghost var was := due;
      due := due[p := at];
      SortedElsewhere(order, was, due, p);
      if p in order {
        WithoutSorted(order, due, Place(p));
      }
      Remove(p);
      var _ := Insert(p);
    }

    method TakeHead()
      requires Valid() && order != []
      modifies this`links, this`head, this`tail, this`queued, this`order
      ensures Valid() && old(order) == [old(head)] + order && 0 <= old(head) < |due|
    {
      ListAt(Ends(), order, 0);
      ListAt(Ends(), order, 1);
      RestSorted(order, due, 0);
      HeadAndRest(order);
      TakeOut(head, 0);
    }

    /** The next process whose time has come. */
    method PopDue(now: nat) returns (p: int)
      requires Valid()
      modifies this`links, this`head, this`tail, this`queued, this`order
      ensures Valid() && |order| <= |old(order)|
      ensures p == NULL <==> old(order) == [] || due[old(order[0])] > now
      ensures p == NULL ==> order == old(order)
      ensures p != NULL ==> 0 <= p < |due| && old(order) == [p] + order
    {
      ListAt(Ends(), order, 0);
      if head == NULL || now < due[head] {
        return NULL;
      }
      p := head;
      TakeHead();
    }
  }
}
