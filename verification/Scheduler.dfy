/** The scheduler steps of src/kernel/scheduler.c, each one section under its lock. */
module Scheduler {
  import opened Seqs
  import opened Bits
  import opened Rings
  import opened Lists
  import opened RunQueues
  import opened Rounds
  import opened Loads
  import TimerQueue

  datatype State = Ready | Running | Blocked | Sleeping | Zombie

  /** A process is on a list iff it is ready, and the list is that of its priority and CPU. */
  ghost predicate Place(home: int, state: State, priority: nat, cpu: nat, cpus: nat, limbo: bool) {
    && cpu < cpus && priority < PRIOS
    && (home != NULL ==> 0 <= home < 64 * cpus && state == Ready && home % 32 == priority && home / 64 == cpu)
    && (state == Ready && !limbo ==> home != NULL)
  }

  lemma KeyPlace(p: nat, c: nat, a: nat, cpus: nat)
    requires p < PRIOS && c < cpus && a < 2
    ensures var k := 32 * (2 * c + a) + p;
            0 <= k < 64 * cpus && k / 32 == 2 * c + a && Place(k, Ready, p, c, cpus, false)
  {
  }

  /** One step down, the lowest stays. */
  function Decayed(priority: nat): nat {
    if priority < PRIOS - 1 then priority + 1 else priority
  }

  /** One step up, the highest stays. */
  function Boosted(priority: nat): nat {
    if priority > 0 then priority - 1 else 0
  }

  /** Below the ends of the range, waking up on time makes good for one used-up slice. */
  lemma BoostUndoesDecay(priority: nat)
    ensures priority < PRIOS - 1 ==> Boosted(Decayed(priority)) == priority && Decayed(priority) == priority + 1
    ensures 0 < priority < PRIOS ==> Decayed(Boosted(priority)) == priority && Boosted(priority) == priority - 1
    ensures Decayed(PRIOS - 1) == PRIOS - 1 && Boosted(0) == 0
  {
  }

  /** The lowest priority is the limit. */
  function Capped(priority: nat): nat {
    if priority < PRIOS then priority else PRIOS - 1
  }

  /** How many slices process `x` has used up in the ticks from `t[0]` to the last of `t`. */
  ghost function UsedUp(t: seq<Round>, x: int): nat {
    if |t| <= 1 then 0
    else UsedUp(t[..|t| - 1], x) + if t[|t| - 2].slice == 0 && t[|t| - 2].current == x then 1 else 0
  }

  lemma OneTickMore(t: seq<Round>, v: Round, x: int)
    requires |t| > 0
    ensures UsedUp(t + [v], x) == UsedUp(t, x) + if t[|t| - 1].slice == 0 && t[|t| - 1].current == x then 1 else 0
  {
    assert (t + [v])[..|t|] == t;
  }

  /** Every process is as many priorities lower than in `start` as it has used up slices since, up to the limit. */
  ghost predicate DecaysTo(start: seq<nat>, now: seq<nat>, t: seq<Round>) {
    |now| == |start| && forall x :: 0 <= x < |start| ==> now[x] == Capped(start[x] + UsedUp(t, x))
  }

  lemma CapNext(priority: nat)
    ensures Capped(Capped(priority) + 1) == Capped(priority + 1)
  {
  }

  lemma DecaysOn(start: seq<nat>, t: seq<Round>, v: Round, before: seq<nat>, now: seq<nat>)
    requires |t| > 0 && DecaysTo(start, before, t)
    requires var last := t[|t| - 1];
             if last.slice == 0
             then 0 <= last.current < |before| && now == before[last.current := Capped(before[last.current] + 1)]
             else now == before
    ensures DecaysTo(start, now, t + [v])
  {
    forall x | 0 <= x < |start| ensures now[x] == Capped(start[x] + UsedUp(t + [v], x)) {
      OneTickMore(t, v, x);
      CapNext(start[x] + UsedUp(t, x));
    }
  }

  /** The processes on the lists of array `r`. */
  ghost function Waiting(home: seq<int>, r: int): set<int> {
    set x | 0 <= x < |home| && home[x] / 32 == r
  }

  lemma WaitingMoves(home: seq<int>, x: int, k: int, r: int)
    requires 0 <= x < |home|
    ensures Waiting(home[x := k], r) == Waiting(home, r) - {x} + if k / 32 == r then {x} else {}
  {
  }

  lemma RowEmpty(bits: nat, lists: seq<seq<int>>, home: seq<int>, r: int)
    requires 0 <= r && 32 * r + 32 <= |lists| && RowMarked(bits, lists, r) && Homed(lists, home)
    ensures bits == 0 ==> forall x :: 0 <= x < |home| ==> home[x] / 32 != r
  {
    if bits == 0 {
      forall x | 0 <= x < |home| ensures home[x] / 32 != r {
        if home[x] / 32 == r {
          assert 32 * r <= home[x] < 32 * r + 32;
          assert x in lists[home[x]];
          NoBits(home[x] - 32 * r);
        }
      }
    }
  }

  lemma RowLeast(bits: nat, lists: seq<seq<int>>, home: seq<int>, r: int, x: int)
    requires 0 <= r && 32 * r + 32 <= |lists| && RowMarked(bits, lists, r) && Homed(lists, home) && bits > 0
    requires 0 <= x < |home| && home[x] / 32 == r
    ensures 32 * r + TrailingZeros(bits) <= home[x]
  {
    assert 32 * r <= home[x] < 32 * r + 32;
    var j := home[x] - 32 * r;
    LowestBit(bits, j);
    assert x in lists[32 * r + j];
  }

  lemma RowFirst(bits: nat, lists: seq<seq<int>>, home: seq<int>, r: int)
    requires 0 <= r && 32 * r + 32 <= |lists| && RowMarked(bits, lists, r) && Homed(lists, home) && bits > 0
    ensures TrailingZeros(bits) < 32
    ensures var k := 32 * r + TrailingZeros(bits);
            lists[k] != [] && 0 <= lists[k][0] < |home| && home[lists[k][0]] == k
  {
    LowestBit(bits, 0);
    var k := 32 * r + TrailingZeros(bits);
    assert lists[k][0] in lists[k];
    assert home[lists[k][0]] == k;
  }

  /** The first of `q` that is not `skip`. */
  ghost function FirstBut(q: seq<int>, skip: int): int {
    if q == [] then NULL else if q[0] != skip then q[0] else FirstBut(q[1..], skip)
  }

  /** The first process other than `skip` of the last list that has one. */
  ghost function LeastOf(rows: seq<seq<int>>, skip: int): int {
    if rows == [] then NULL else
    var x := FirstBut(rows[|rows| - 1], skip);
    if x != NULL then x else LeastOf(rows[..|rows| - 1], skip)
  }

  /** The lists of array `r`, the most urgent first. */
  ghost function Row(lists: seq<seq<int>>, r: int): seq<seq<int>>
    requires 0 <= r && 32 * r + 32 <= |lists|
  {
    lists[32 * r..32 * r + 32]
  }

  class Scheduler {
    // Of each process.
    var links: seq<Link>
    var state: seq<State>
    var priority: seq<nat>
    var slice: seq<nat>
    var cpu: seq<nat>
    const sleep: TimerQueue.Queue
    // Of each CPU.
    var ends: seq<Link>
    var bitmap: seq<nat>
    var active: seq<nat>
    var current: seq<int>
    const idle: seq<int>
    var load: seq<nat>
    // Which list each process is on, and in which order.
    ghost var lists: seq<seq<int>>
    ghost var home: seq<int>

    ghost predicate Queues()
      reads this
    {
      && |links| == |home| && |bitmap| == 2 * |active| && |load| == |active|
      && (forall c :: 0 <= c < |active| ==> active[c] < 2)
      && Chained(links, ends, lists) && Homed(lists, home) && Marked(bitmap, lists)
    }

    ghost predicate Placed(limbo: int)
      reads this
    {
      && |home| == |state| == |priority| == |slice| == |cpu|
      && forall x :: 0 <= x < |home| ==> Place(home[x], state[x], priority[x], cpu[x], |active|, x == limbo)
    }

    /** Nobody runs but on the CPU that has it as its current process. */
    ghost predicate Seated()
      reads this
    {
      && |current| == |idle| == |active| && |cpu| == |state|
      && (forall c :: 0 <= c < |current| ==> 0 <= current[c] < |cpu| && cpu[current[c]] == c)
      && (forall c :: 0 <= c < |idle| ==> 0 <= idle[c] < |cpu| && cpu[idle[c]] == c)
      && forall x :: 0 <= x < |state| && state[x] == Running ==> cpu[x] < |current| && current[cpu[x]] == x
    }

    ghost predicate Sliced()
      reads this
    {
      forall x :: 0 <= x < |slice| ==> slice[x] <= SLICE
    }

    /** Between two steps: everything is consistent, and every CPU runs something. */
    ghost predicate Valid()
      reads this, sleep
    {
      && Queues() && Placed(NULL) && Seated() && Sliced() && sleep.Valid() && |sleep.due| == |home|
      && forall c :: 0 <= c < |current| ==> state[current[c]] == Running
    }

    /** At start every CPU runs its idle process, which has the lowest priority. */
    constructor (cpus: nat, processes: nat)
      requires 0 < cpus <= processes
      ensures Valid() && |active| == cpus && |home| == processes && fresh(sleep)
      ensures forall c :: 0 <= c < cpus ==> current[c] == idle[c] == c && active[c] == 0 && slice[c] == SLICE && load[c] == 0
      ensures forall x :: 0 <= x < processes ==> home[x] == NULL && priority[x] == PRIOS - 1
      ensures forall x :: cpus <= x < processes ==> state[x] == Blocked && cpu[x] == 0
    {
      links := seq(processes, _ => Link(NULL, NULL));
      state := seq(processes, x => if x < cpus then Running else Blocked);
      priority := seq(processes, _ => PRIOS - 1);
      slice := seq(processes, _ => SLICE);
      cpu := seq(processes, x => if x < cpus then x else 0);
      sleep := new TimerQueue.Queue(processes);
      ends := seq(64 * cpus, _ => Link(NULL, NULL));
      bitmap := seq(2 * cpus, _ => 0);
      active := seq(cpus, _ => 0);
      current := seq(cpus, c => c);
      idle := seq(cpus, c => c);
      load := seq(cpus, _ => 0);
      lists := seq(64 * cpus, _ => []);
      home := seq(processes, _ => NULL);
      new;
      NothingQueued(links, ends, bitmap, lists);
    }

    /** As `Valid`, except that the process of CPU `c` may have stopped running and is about to give up the CPU. */
    ghost predicate Leaving(c: int)
      reads this, sleep
    {
      && Queues() && Placed(NULL) && Seated() && Sliced() && sleep.Valid() && |sleep.due| == |home|
      && forall d :: 0 <= d < |current| && d != c ==> state[current[d]] == Running
    }

    /** CPU `c` as the ticks of its timer see it. */
    ghost function View(c: int): Round
      requires 0 <= c < |active| && |current| == |active| && 0 <= current[c] < |slice| && active[c] < 2
      reads this
    {
      Round(Waiting(home, 2 * c + active[c]), Waiting(home, 2 * c + 1 - active[c]), current[c], slice[current[c]])
    }

    /** Nobody waits twice or waits while running: the ticks of `Rounds` start from a state like this. */
    lemma ViewIsSane(c: int)
      requires Valid() && 0 <= c < |active|
      ensures Sane(View(c)) && View(c).slice <= SLICE
    {
      assert Place(home[current[c]], state[current[c]], priority[current[c]], cpu[current[c]], |active|, false);
    }

    // ---- Queue operations ----

    /** `x` goes to the end of list `k`. */
    method Enqueue(k: int, x: int)
      requires Queues() && 0 <= k < |lists| && 0 <= x < |home| && home[x] == NULL
      modifies this`links, this`ends, this`bitmap, this`lists, this`home
      ensures Queues() && lists == old(lists)[k := old(lists[k]) + [x]] && home == old(home)[x := k]
    {
      ListAt(Store(links, ends[k]), lists[k], |lists[k]|);
      ListAt(Store(links, ends[k]), lists[k], |lists[k]| + 1);
      ChainedAfterLink(links, ends, lists, home, k, x, Linked(Store(links, ends[k]), x, ends[k].prev, NULL));
      HomedAfterLink(lists, home, k, x);
      MarkedAfterSet(bitmap, lists, k, lists[k] + [x]);
      var tail := ends[k].prev;
      links := links[x := Link(NULL, tail)];
      if tail != NULL {
        links := links[tail := links[tail].(next := x)];
      } else {
        ends := ends[k := ends[k].(next := x)];
      }
      ends := ends[k := ends[k].(prev := x)];
      bitmap := bitmap[k / 32 := SetBit(bitmap[k / 32], k % 32)];
      lists, home := lists[k := lists[k] + [x]], home[x := k];
    }

    /** `x` leaves list `k`, where it stands at position `i`. */
    method Dequeue(k: int, x: int, ghost i: int)
      requires Queues() && 0 <= k < |lists| && 0 <= i < |lists[k]| && lists[k][i] == x && 0 <= x < |home|
      modifies this`links, this`ends, this`bitmap, this`lists, this`home
      ensures Queues()
      ensures lists == old(lists)[k := Without(old(lists[k]), i)] && home == old(home)[x := NULL]
    {
      UnlinkedList(Store(links, ends[k]), lists[k], i);
      ChainedAfterUnlink(links, ends, lists, home, k, i, Unlinked(Store(links, ends[k]), x));
      HomedAfterUnlink(lists, home, k, i);
      MarkedAfterClear(bitmap, lists, k, Without(lists[k], i));
      var before, after := links[x].prev, links[x].next;
      if before != NULL {
        links := links[before := links[before].(next := after)];
      } else {
        ends := ends[k := ends[k].(next := after)];
      }
      if after != NULL {
        links := links[after := links[after].(prev := before)];
      } else {
        ends := ends[k := ends[k].(prev := before)];
      }
      links := links[x := Link(NULL, NULL)];
      lists, home := lists[k := Without(lists[k], i)], home[x := NULL];
      HeadIsNull(Store(links, ends[k]), lists[k]);
      if ends[k].next == NULL {
        bitmap := bitmap[k / 32 := ClearBit(bitmap[k / 32], k % 32)];
      }
    }

    /** The first process of the most urgent list of array `r`. */
    method Lowest(r: int) returns (x: int)
      requires Queues() && 0 <= r < |bitmap|
      ensures x == NULL <==> forall y :: 0 <= y < |home| ==> home[y] / 32 != r
      ensures x != NULL ==> First(x, r)
    {
      RowEmpty(bitmap[r], lists, home, r);
      if bitmap[r] == 0 {
        return NULL;
      }
      RowFirst(bitmap[r], lists, home, r);
      forall y | 0 <= y < |home| && home[y] / 32 == r ensures 32 * r + TrailingZeros(bitmap[r]) <= home[y] {
        RowLeast(bitmap[r], lists, home, r, y);
      }
      var k := 32 * r + TrailingZeros(bitmap[r]);
      ListAt(Store(links, ends[k]), lists[k], 0);
      x := ends[k].next;
    }

    /** `x` has waited longest among the most urgent processes of array `r`. */
    ghost predicate First(x: int, r: int)
      reads this
    {
      && 0 <= x < |home| && 0 <= home[x] < |lists| && home[x] / 32 == r && |lists[home[x]]| > 0 && lists[home[x]][0] == x
      && forall y :: 0 <= y < |home| && home[y] / 32 == r ==> home[x] <= home[y]
    }

    ghost predicate Empty(r: int)
      reads this
    {
      forall y :: 0 <= y < |home| ==> home[y] / 32 != r
    }

    lemma EmptyIsNone(r: int)
      ensures Empty(r) <==> Waiting(home, r) == {}
    {
      if Empty(r) {
        assert Waiting(home, r) == {};
      } else {
        var y :| 0 <= y < |home| && home[y] / 32 == r;
        assert y in Waiting(home, r);
      }
    }

    lemma NotEmpty(x: int, r: int)
      requires 0 <= x < |home| && home[x] / 32 == r
      ensures !Empty(r)
    {
    }

    /** The arrays change places only when the active one has run empty. */
    method PickNext(c: int) returns (x: int)
      requires Queues() && 0 <= c < |active|
      modifies this`active
      ensures Queues() && old(active[c]) < 2
      ensures active == if old(Empty(2 * c + active[c])) then old(active)[c := 1 - old(active[c])] else old(active)
      ensures x == NULL <==> old(Empty(2 * c)) && old(Empty(2 * c + 1))
      ensures x != NULL ==> First(x, 2 * c + active[c])
    {
      x := Lowest(2 * c + active[c]);
      if x != NULL {
        return;
      }
      active := active[c := 1 - active[c]];
      x := Lowest(2 * c + active[c]);
    }

    // ---- Giving up the CPU ----

    method Decay(x: int)
      requires 0 <= x < |priority|
      modifies this`priority
      ensures priority == old(priority)[x := Decayed(old(priority[x]))]
    {
      if priority[x] < PRIOS - 1 {
        priority := priority[x := priority[x] + 1];
      }
    }

    /** The slice is used up: one priority lower, and to the end of that list of the expired array. */
    method RunOut(c: int)
      requires Leaving(c) && 0 <= c < |active| && state[current[c]] == Running
      modifies this`state, this`priority, this`links, this`ends, this`bitmap, this`lists, this`home
      ensures Leaving(c) && state == old(state)[current[c] := Ready]
      ensures priority == old(priority)[current[c] := Capped(old(priority[current[c]]) + 1)]
      ensures home == old(home)[current[c] := 32 * (2 * c + 1 - active[c]) + priority[current[c]]]
      ensures old(home[current[c]]) == NULL && home[current[c]] / 32 == 2 * c + 1 - active[c]
    {
      var prev := current[c];
      ghost var was, states, prios := home, state, priority;
      assert Place(home[prev], state[prev], priority[prev], cpu[prev], |active|, prev == NULL);
      KeyPlace(Decayed(priority[prev]), c, 1 - active[c], |active|);
      state := state[prev := Ready];
      Decay(prev);
      Enqueue(32 * (2 * c + 1 - active[c]) + priority[prev], prev);
      Requeued(was, states, prios, prev, home[prev], priority[prev]);
    }

    lemma FirstIsUrgent(x: int, c: int, a: nat)
      requires Placed(NULL) && First(x, 2 * c + a) && a < 2
      ensures home[x] == 32 * (2 * c + a) + priority[x] && cpu[x] == c
      ensures forall y :: 0 <= y < |home| && home[y] / 32 == 2 * c + a ==> priority[x] <= priority[y]
    {
      assert Place(home[x], state[x], priority[x], cpu[x], |active|, x == NULL);
      forall y | 0 <= y < |home| && home[y] / 32 == 2 * c + a ensures priority[x] <= priority[y] {
        assert Place(home[y], state[y], priority[y], cpu[y], |active|, y == NULL);
      }
    }

    lemma ReadyWaits(x: int, c: int)
      requires Placed(NULL) && 0 <= x < |home| && cpu[x] == c && Empty(2 * c) && Empty(2 * c + 1)
      ensures home[x] == NULL && state[x] != Ready
    {
      assert Place(home[x], state[x], priority[x], cpu[x], |active|, x == NULL);
    }

    lemma LimboPlaced(was: seq<int>, x: int)
      requires |was| == |state| == |priority| == |cpu| && 0 <= x < |was|
      requires forall y :: 0 <= y < |was| ==> Place(was[y], state[y], priority[y], cpu[y], |active|, y == NULL)
      requires home == was[x := NULL] && |slice| == |was|
      ensures Placed(x)
    {
    }

    /** One process has changed its list, its state and its priority together. */
    lemma Requeued(was: seq<int>, states: seq<State>, prios: seq<nat>, x: int, k: int, p: nat)
      requires |was| == |states| == |prios| == |cpu| == |slice| && 0 <= x < |was|
      requires forall y :: 0 <= y < |was| ==> Place(was[y], states[y], prios[y], cpu[y], |active|, y == NULL)
      requires home == was[x := k] && state == states[x := Ready] && priority == prios[x := p]
      requires Place(k, Ready, p, cpu[x], |active|, false)
      ensures Placed(NULL)
    {
      forall y | 0 <= y < |home| ensures Place(home[y], state[y], priority[y], cpu[y], |active|, y == NULL) {
        assert y != x ==> Place(was[y], states[y], prios[y], cpu[y], |active|, y == NULL);
      }
    }

    /** Nobody on the lists of array `r` is more urgent than `x`. */
    ghost predicate Urgent(x: int, r: int)
      requires 0 <= x < |priority| && |priority| == |home|
      reads this
    {
      forall y :: 0 <= y < |home| && home[y] / 32 == r ==> priority[x] <= priority[y]
    }

    method TakeFirst(x: int, c: int)
      requires Queues() && Placed(NULL) && 0 <= c < |active| && First(x, 2 * c + active[c])
      modifies this`links, this`ends, this`bitmap, this`lists, this`home
      ensures Queues() && Placed(x) && home == old(home)[x := NULL] && cpu[x] == c && Urgent(x, 2 * c + active[c])
    {
      ghost var was := home;
      FirstIsUrgent(x, c, active[c]);
      Dequeue(32 * (2 * c + active[c]) + priority[x], x, 0);
      LimboPlaced(was, x);
    }

    /** Who runs next on CPU `c`; it is on no list any more, and `picked` if it was on one. */
    method Choose(c: int) returns (next: int, picked: bool)
      requires Leaving(c) && 0 <= c < |active| && state[current[c]] != Running
      modifies this`active, this`links, this`ends, this`bitmap, this`lists, this`home
      ensures Queues() && Placed(next) && 0 <= next < |home| && home[next] == NULL && cpu[next] == c
      ensures |active| == old(|active|) && home == old(home)[next := NULL] && (picked <==> old(home[next]) != NULL)
      ensures active == if old(Empty(2 * c + active[c])) then old(active)[c := 1 - old(active[c])] else old(active)
      ensures !picked ==> old(Empty(2 * c)) && old(Empty(2 * c + 1)) && next == idle[c]
      ensures picked ==> old(home[next]) / 32 == 2 * c + active[c]
      ensures Urgent(next, 2 * c + active[c])
    {
      next := PickNext(c);
      picked := next != NULL;
      if picked {
        TakeFirst(next, c);
      } else {
        ReadyWaits(current[c], c);
        if state[current[c]] == Ready {
          assert false;
        }
        next := idle[c];
        ReadyWaits(next, c);
        LimboPlaced(home, next);
      }
    }

    /** The counter of the CPU goes down with the process that is picked. */
    method Pick(c: int) returns (next: int)
      requires Leaving(c) && 0 <= c < |active| && state[current[c]] != Running
      modifies this`active, this`links, this`ends, this`bitmap, this`lists, this`home, this`load
      ensures Queues() && Placed(next) && 0 <= next < |home| && home[next] == NULL && cpu[next] == c
      ensures |active| == old(|active|) && home == old(home)[next := NULL]
      ensures load == if old(home[next]) == NULL then old(load) else Lowered(old(load), c)
      ensures active == if old(Empty(2 * c + active[c])) then old(active)[c := 1 - old(active[c])] else old(active)
      ensures old(home[next]) == NULL ==> old(Empty(2 * c)) && old(Empty(2 * c + 1)) && next == idle[c]
      ensures old(home[next]) != NULL ==> old(home[next]) / 32 == 2 * c + active[c]
      ensures Urgent(next, 2 * c + active[c])
    {
      var picked;
      next, picked := Choose(c);
      load := if picked then Lowered(load, c) else load;
    }

    /** `next` is given the CPU and a full slice. */
    method Install(c: int, next: int)
      requires Queues() && Seated() && Placed(next) && Sliced() && sleep.Valid() && |sleep.due| == |home|
      requires 0 <= c < |active| && 0 <= next < |home| && home[next] == NULL && cpu[next] == c
      requires state[current[c]] != Running
      requires forall d :: 0 <= d < |current| && d != c ==> state[current[d]] == Running
      modifies this`state, this`slice, this`current
      ensures Valid() && state == old(state)[next := Running] && slice == old(slice)[next := SLICE]
      ensures current == old(current)[c := next]
    {
      current := current[c := next];
      state := state[next := Running];
      slice := slice[next := SLICE];
    }

    /** What the arrays of CPU `c` hold after the process with the used-up slice joined them and `next` left. */
    lemma ExpiryStep(c: int, was: seq<int>, mid: seq<int>, prev: int, next: int, a: nat, r: Round)
      requires 0 <= c < |active| && |current| == |active| && 0 <= current[c] < |slice| && active[c] < 2 && a < 2
      requires 0 <= prev < |was| == |mid| && was[prev] == NULL && mid == was[prev := mid[prev]]
      requires mid[prev] / 32 == 2 * c + 1 - a && 0 <= next < |mid| && mid[next] / 32 == 2 * c + active[c]
      requires home == mid[next := NULL] && active[c] == if Waiting(mid, 2 * c + a) == {} then 1 - a else a
      requires current[c] == next && slice[next] == SLICE
      requires r == Round(Waiting(was, 2 * c + a), Waiting(was, 2 * c + 1 - a), prev, 0)
      ensures Expiry(r, View(c))
    {
      WaitingMoves(was, prev, mid[prev], 2 * c + a);
      WaitingMoves(was, prev, mid[prev], 2 * c + 1 - a);
      WaitingMoves(mid, next, NULL, 2 * c + a);
      WaitingMoves(mid, next, NULL, 2 * c + 1 - a);
    }

    lemma ExpiryLoads(was: seq<int>, mid: seq<int>, loads: seq<nat>, prev: int, next: int, c: int, a: nat)
      requires 0 <= c < |active| == |loads| && active[c] < 2 && a < 2
      requires 0 <= prev < |was| == |mid| && was[prev] == NULL && mid == was[prev := mid[prev]]
      requires mid[prev] / 32 == 2 * c + 1 - a && 0 <= next < |mid| && mid[next] / 32 == 2 * c + active[c]
      requires home == mid[next := NULL] && load == Lowered(loads, c)
      ensures Accurate(was, loads) ==> (Accurate(home, load) <==> Pool(was, c) == {})
    {
      if Accurate(was, loads) {
        Expires(was, loads, prev, mid[prev], next, c);
      }
    }

    /** The switch at the end of `schedule`, from a process that has already stopped running. */
    method Switch(c: int)
      requires Leaving(c) && 0 <= c < |active| && state[current[c]] != Running
      modifies this`active, this`links, this`ends, this`bitmap, this`lists, this`home
      modifies this`state, this`slice, this`current, this`load
      ensures Valid() && |active| == old(|active|) && |current| == old(|current|) && 0 <= current[c] < |home|
      ensures home == old(home)[current[c] := NULL] && current == old(current)[c := current[c]]
      ensures state == old(state)[current[c] := Running] && slice == old(slice)[current[c] := SLICE]
      ensures active == if old(Empty(2 * c + active[c])) then old(active)[c := 1 - old(active[c])] else old(active)
      ensures old(home)[current[c]] == NULL ==> old(Empty(2 * c)) && old(Empty(2 * c + 1)) && current[c] == idle[c]
      ensures old(home)[current[c]] != NULL ==> old(home)[current[c]] / 32 == 2 * c + active[c]
      ensures load == if old(home)[current[c]] == NULL then old(load) else Lowered(old(load), c)
      ensures Urgent(current[c], 2 * c + active[c])
    {
      var next := Pick(c);
      Install(c, next);
    }

    /** The switch when somebody waits for CPU `c`. */
    method SwitchOver(c: int)
      requires Leaving(c) && 0 <= c < |active| && state[current[c]] != Running
      requires !Empty(2 * c) || !Empty(2 * c + 1)
      modifies this`active, this`links, this`ends, this`bitmap, this`lists, this`home
      modifies this`state, this`slice, this`current, this`load
      ensures Valid() && |active| == old(|active|) && |current| == old(|current|) && 0 <= current[c] < |home|
      ensures home == old(home)[current[c] := NULL] && current == old(current)[c := current[c]]
      ensures state == old(state)[current[c] := Running] && slice == old(slice)[current[c] := SLICE]
      ensures active[c] == if old(Waiting(home, 2 * c + active[c]) == {}) then 1 - old(active[c]) else old(active[c])
      ensures old(home)[current[c]] / 32 == 2 * c + active[c] && Urgent(current[c], 2 * c + active[c])
      ensures load == Lowered(old(load), c)
    {
      EmptyIsNone(2 * c + active[c]);
      Switch(c);
    }

    /** The slice goes on. */
    method UseTick(c: int)
      requires Valid() && 0 <= c < |active| && slice[current[c]] > 0
      modifies this`slice
      ensures Valid() && slice == old(slice)[current[c] := old(slice[current[c]]) - 1]
      ensures View(c) == old(View(c)).(slice := old(slice[current[c]]) - 1)
    {
      slice := slice[current[c] := slice[current[c]] - 1];
    }

    /** The process with the used-up slice joins the expired ones, which makes the lists `mid`, and the next one leaves. */
    method TurnOver(c: int) returns (ghost mid: seq<int>)
      requires Valid() && 0 <= c < |active|
      modifies this`active, this`links, this`ends, this`bitmap, this`lists, this`home
      modifies this`state, this`slice, this`current, this`load, this`priority
      ensures Valid() && |active| == old(|active|) && current == old(current)[c := current[c]]
      ensures state == old(state)[old(current[c]) := Ready][current[c] := Running] && slice[current[c]] == SLICE
      ensures priority == old(priority)[old(current[c]) := Capped(old(priority[current[c]]) + 1)]
      ensures 0 <= old(current[c]) < |mid| == |home| && mid == old(home)[old(current[c]) := mid[old(current[c])]]
      ensures old(home[current[c]]) == NULL && mid[old(current[c])] / 32 == 2 * c + 1 - old(active[c])
      ensures mid[current[c]] / 32 == 2 * c + active[c] && home == mid[current[c] := NULL]
      ensures active[c] == if Waiting(mid, 2 * c + old(active[c])) == {} then 1 - old(active[c]) else old(active[c])
      ensures Urgent(current[c], 2 * c + active[c])
      ensures load == Lowered(old(load), c)
    {
      RunOut(c);
      mid := home;
      NotEmpty(current[c], 2 * c + 1 - active[c]);
      SwitchOver(c);
    }

    /** The slice has been used up. */
    method Expire(c: int)
      requires Valid() && 0 <= c < |active| && slice[current[c]] == 0
      modifies this`active, this`links, this`ends, this`bitmap, this`lists, this`home
      modifies this`state, this`slice, this`current, this`load, this`priority
      ensures Valid() && |active| == old(|active|) && current == old(current)[c := current[c]]
      ensures Expiry(old(View(c)), View(c)) && Urgent(current[c], 2 * c + active[c])
      ensures state == old(state)[old(current[c]) := Ready][current[c] := Running]
      ensures priority == old(priority)[old(current[c]) := Capped(old(priority[current[c]]) + 1)]
      ensures load == Lowered(old(load), c)
      ensures old(Accurate(home, load)) ==> (Accurate(home, load) <==> old(Pool(home, c)) == {})
    {
      ghost var was, prev, a, r := home, current[c], active[c], View(c);
      ghost var loads := load;
      ghost var mid := TurnOver(c);
      ExpiryStep(c, was, mid, prev, current[c], a, r);
      ExpiryLoads(was, mid, loads, prev, current[c], c, a);
    }

    /** A process that has gone to sleep is queued for its tick, if it is not yet. */
    method FallAsleep(x: int)
      requires sleep.Valid() && 0 <= x < |sleep.due| && 0 <= x < |state|
      modifies sleep
      ensures sleep.Valid() && |sleep.due| == old(|sleep.due|) && (state[x] == Sleeping ==> sleep.queued[x])
    {
      if state[x] == Sleeping && !sleep.queued[x] {
        var _ := sleep.Insert(x);
      }
    }

    /** A process that has already stopped running gives up the CPU. */
    method Leave(c: int)
      requires Leaving(c) && 0 <= c < |active| && state[current[c]] != Running
      modifies this`active, this`links, this`ends, this`bitmap, this`lists, this`home
      modifies this`state, this`slice, this`current, this`load, sleep
      ensures Valid() && |active| == old(|active|) && current == old(current)[c := current[c]]
      ensures state == old(state)[current[c] := Running] && Urgent(current[c], 2 * c + active[c])
      ensures old(state[current[c]] == Sleeping) ==> sleep.queued[old(current[c])]
      ensures load == old(load)[c := load[c]] && (old(Accurate(home, load)) ==> Accurate(home, load))
    {
      FallAsleep(current[c]);
      ghost var was, loads := home, load;
      Switch(c);
      Loads.Leaves(was, loads, current[c], c);
    }

    /** A tick, or a process that has blocked, gone to sleep or died: the one step `schedule` takes. */
    method Schedule(c: int)
      requires Leaving(c) && 0 <= c < |active|
      modifies this, sleep
      ensures Valid() && cpu == old(cpu) && |active| == old(|active|)
      ensures current == old(current)[c := current[c]]
      ensures old(state[current[c]] == Running) ==> Tick(old(View(c)), View(c))
      ensures old(state[current[c]] == Running && slice[current[c]] > 0) ==>
                home == old(home) && state == old(state) && priority == old(priority)
      ensures old(state[current[c]] == Running && slice[current[c]] == 0) ==>
                && state == old(state)[old(current[c]) := Ready][current[c] := Running]
                && priority == old(priority)[old(current[c]) := Capped(old(priority[current[c]]) + 1)]
      ensures old(state[current[c]] != Running) ==>
                state == old(state)[current[c] := Running] && priority == old(priority)
      ensures old(state[current[c]] == Running && slice[current[c]] > 0) || Urgent(current[c], 2 * c + active[c])
      ensures old(state[current[c]] == Sleeping) ==> sleep.queued[old(current[c])]
      ensures old(Accurate(home, load)) ==>
                (Accurate(home, load) <==> !old(state[current[c]] == Running && slice[current[c]] == 0 && Pool(home, c) != {}))
      ensures load == old(load)[c := load[c]]
      ensures old(state[current[c]] == Running && slice[current[c]] > 0) ==> load == old(load)
      ensures old(state[current[c]] == Running && slice[current[c]] == 0) ==> load == Lowered(old(load), c)
    {
      if state[current[c]] != Running {
        Leave(c);
      } else if slice[current[c]] > 0 {
        UseTick(c);
      } else {
        Expire(c);
      }
    }

    lemma InRange(v: Round)
      requires Placed(NULL)
      ensures DecaysTo(priority, priority, [v])
    {
      forall x | 0 <= x < |priority| ensures priority[x] < PRIOS {
        assert Place(home[x], state[x], priority[x], cpu[x], |active|, x == NULL);
      }
    }

    /** One timer tick of CPU `c` at the end of the ticks `t`. */
    method OneTick(c: int, ghost start: seq<nat>, ghost t: seq<Round>)
      requires Valid() && 0 <= c < |active| && |t| > 0 && t[|t| - 1] == View(c) && DecaysTo(start, priority, t)
      modifies this, sleep
      ensures Valid() && |active| == old(|active|) && cpu == old(cpu) && Tick(old(View(c)), View(c))
      ensures DecaysTo(start, priority, t + [View(c)])
    {
      ghost var before := priority;
      Schedule(c);
      DecaysOn(start, t, View(c), before, priority);
    }

    /** `n` timer ticks of CPU `c`: within six times as many ticks as there are processes, everyone has been chosen. */
    method Ticks(c: int, n: nat) returns (chosen: seq<int>, ghost t: seq<Round>)
      requires Valid() && 0 <= c < |active|
      modifies this, sleep
      ensures Valid() && |active| == old(|active|) && cpu == old(cpu)
      ensures |t| == n + 1 && t[0] == old(View(c)) && t[n] == View(c) && Trace(t)
      ensures |chosen| == n && forall i :: 0 <= i < n ==> chosen[i] == t[i + 1].current
      ensures n >= 6 * |Everyone(t[0])| ==> forall p :: p in Everyone(t[0]) ==> p in chosen
      ensures DecaysTo(old(priority), priority, t)
    {
      ViewIsSane(c);
      chosen, t := [], [View(c)];
      InRange(View(c));
      for i := 0 to n
        invariant Valid() && |active| == old(|active|) && cpu == old(cpu)
        invariant |t| == i + 1 && t[0] == old(View(c)) && t[i] == View(c) && Trace(t)
        invariant |chosen| == i && forall j :: 0 <= j < i ==> chosen[j] == t[j + 1].current
        invariant DecaysTo(old(priority), priority, t)
      {
        OneTick(c, old(priority), t);
        chosen, t := chosen + [current[c]], t + [View(c)];
      }
      AllChosen(t, chosen);
    }

    // ---- Waking up ----

    /** The list a process is put on when it becomes ready. */
    ghost function Key(x: int): int
      requires 0 <= x < |cpu| && |cpu| == |priority| && cpu[x] < |active|
      reads this
    {
      32 * (2 * cpu[x] + active[cpu[x]]) + priority[x]
    }

    lemma KeyPlaces(x: int)
      requires Queues() && Placed(NULL) && 0 <= x < |home|
      ensures cpu[x] < |active| && 0 <= Key(x) < |lists|
      ensures Place(Key(x), Ready, priority[x], cpu[x], |active|, false) && Key(x) / 32 == 2 * cpu[x] + active[cpu[x]]
    {
      assert Place(home[x], state[x], priority[x], cpu[x], |active|, x == NULL);
      KeyPlace(priority[x], cpu[x], active[cpu[x]], |active|);
    }

    /** A process that is neither ready nor running goes to the end of its list. */
    method LineUp(x: int, ghost c: int)
      requires Leaving(c) && 0 <= x < |home| && state[x] != Ready && state[x] != Running
      modifies this`state, this`links, this`ends, this`bitmap, this`lists, this`home
      ensures Leaving(c) && (old(Valid()) ==> Valid())
      ensures state == old(state)[x := Ready] && home == old(home)[x := Key(x)] && old(home[x]) == NULL
      ensures home[x] / 32 == 2 * cpu[x] + active[cpu[x]]
      ensures 0 <= Key(x) < |old(lists)| && lists == old(lists)[Key(x) := old(lists)[Key(x)] + [x]]
    {
      KeyPlaces(x);
      assert Place(home[x], state[x], priority[x], cpu[x], |active|, x == NULL);
      state := state[x := Ready];
      Enqueue(32 * (2 * cpu[x] + active[cpu[x]]) + priority[x], x);
    }

    /** It becomes ready, and is counted. */
    method MakeReady(x: int, ghost c: int)
      requires Leaving(c) && 0 <= x < |home| && state[x] != Ready && state[x] != Running
      modifies this`state, this`links, this`ends, this`bitmap, this`lists, this`home, this`load
      ensures Leaving(c) && (old(Valid()) ==> Valid())
      ensures state == old(state)[x := Ready] && home == old(home)[x := Key(x)] && old(home[x]) == NULL
      ensures home[x] / 32 == 2 * cpu[x] + active[cpu[x]]
      ensures 0 <= Key(x) < |old(lists)| && lists == old(lists)[Key(x) := old(lists)[Key(x)] + [x]]
      ensures load == Raised(old(load), cpu[x]) && (old(Accurate(home, load)) <==> Accurate(home, load))
    {
      KeyPlaces(x);
      ghost var was := home;
      LineUp(x, c);
      Joins(was, load, x, Key(x), cpu[x]);
      load := Raised(load, cpu[x]);
    }

    /** `x` leaves the sleep queue if it is in it. */
    method Unsleep(x: int)
      requires sleep.Chained() && TimerQueue.SortedBut(sleep.order, sleep.due, x) && 0 <= x < |sleep.due|
      modifies sleep
      ensures sleep.Valid() && |sleep.due| == old(|sleep.due|) && !sleep.queued[x]
      ensures forall y :: y in sleep.order <==> y in old(sleep.order) && y != x
    {
      if x in sleep.order {
        TimerQueue.WithoutSorted(sleep.order, sleep.due, sleep.Place(x));
      }
      sleep.Remove(x);
    }

    /** A signal wakes a blocked or sleeping process and leaves the others to notice it themselves. */
    method Wake(x: int, ghost c: int)
      requires Leaving(c) && 0 <= x < |home|
      modifies this`state, this`links, this`ends, this`bitmap, this`lists, this`home, this`load, sleep
      ensures Leaving(c) && (old(Valid()) ==> Valid())
      ensures old(state[x]) != Blocked && old(state[x]) != Sleeping ==>
                home == old(home) && state == old(state) && load == old(load)
      ensures old(state[x]) == Blocked || old(state[x]) == Sleeping ==>
                && state == old(state)[x := Ready] && home == old(home)[x := Key(x)] && !sleep.queued[x]
                && 0 <= Key(x) < |old(lists)| && lists == old(lists)[Key(x) := old(lists)[Key(x)] + [x]]
                && load == Raised(old(load), cpu[x]) && home[x] / 32 == 2 * cpu[x] + active[cpu[x]]
      ensures old(Accurate(home, load)) <==> Accurate(home, load)
    {
      if state[x] == Blocked || state[x] == Sleeping {
        TimerQueue.SortedElsewhere(sleep.order, sleep.due, sleep.due, x);
        Unsleep(x);
        MakeReady(x, c);
      }
    }

    /** A sleeper whose time has come is ready again, one priority higher. */
    method Rouse(x: int, ghost c: int)
      requires Leaving(c) && 0 <= x < |home| && state[x] == Sleeping
      modifies this`state, this`priority, this`links, this`ends, this`bitmap, this`lists, this`home, this`load
      ensures Leaving(c) && (old(Valid()) ==> Valid()) && |home| == old(|home|)
      ensures state == old(state)[x := Ready] && priority == old(priority)[x := Boosted(old(priority[x]))]
      ensures priority[x] == if old(priority[x]) > 0 then old(priority[x]) - 1 else 0
      ensures home == old(home)[x := Key(x)] && home[x] / 32 == 2 * cpu[x] + active[cpu[x]]
      ensures old(Accurate(home, load)) <==> Accurate(home, load)
    {
      assert Place(home[x], state[x], priority[x], cpu[x], |active|, x == NULL);
      if priority[x] > 0 {
        priority := priority[x := priority[x] - 1];
      }
      MakeReady(x, c);
    }

    /** What a timer check at `now` makes of process `x`. */
    ghost predicate Roused(x: int, out: bool, s: State, p: nat)
      requires 0 <= x < |state| && |state| == |priority|
      reads this
    {
      if out && s == Sleeping then state[x] == Ready && priority[x] == Boosted(p) else state[x] == s && priority[x] == p
    }

    /** The processes `out` have left the front of the queue `q`, all of them due. */
    ghost predicate Progress(q: seq<int>, due: seq<nat>, out: seq<int>, now: nat)
      reads this, sleep
    {
      && q == out + sleep.order && sleep.due == due
      && forall x :: x in out ==> 0 <= x < |due| && due[x] <= now
    }

    ghost predicate AllRoused(out: seq<int>, states: seq<State>, prios: seq<nat>)
      reads this
    {
      && |states| == |prios| == |state| == |priority|
      && forall x :: 0 <= x < |state| ==> Roused(x, x in out, states[x], prios[x])
    }

    /** The next sleeper whose time has come, unless there is none. */
    method WakeOne(now: nat, ghost c: int, ghost q: seq<int>, ghost out: seq<int>, ghost states: seq<State>,
                   ghost prios: seq<nat>) returns (p: int)
      requires Leaving(c) && Distinct(q) && Progress(q, sleep.due, out, now) && AllRoused(out, states, prios)
      modifies this`state, this`priority, this`links, this`ends, this`bitmap, this`lists, this`home, this`load, sleep
      ensures Leaving(c) && (old(Valid()) ==> Valid()) && |home| == old(|home|) && sleep.due == old(sleep.due)
      ensures old(Accurate(home, load)) <==> Accurate(home, load)
      ensures p == NULL ==> Progress(q, sleep.due, out, now) && AllRoused(out, states, prios)
                            && (sleep.order == [] || sleep.due[sleep.order[0]] > now)
      ensures p != NULL ==> Progress(q, sleep.due, out + [p], now) && AllRoused(out + [p], states, prios)
                            && |sleep.order| < |old(sleep.order)|
    {
      p := sleep.PopDue(now);
      if p != NULL {
        Assoc3(out, p, sleep.order, q);
        if state[p] == Sleeping {
          Rouse(p, c);
        }
      }
    }

    /** Exactly the sleepers whose time has come are woken, and exactly they leave the queue. */
    method WakeCheck(now: nat, ghost c: int)
      requires Leaving(c)
      modifies this`state, this`priority, this`links, this`ends, this`bitmap, this`lists, this`home, this`load, sleep
      ensures Leaving(c) && (old(Valid()) ==> Valid()) && |home| == old(|home|) && sleep.due == old(sleep.due)
      ensures old(Accurate(home, load)) <==> Accurate(home, load)
      ensures forall x :: x in sleep.order <==> x in old(sleep.order) && 0 <= x < |sleep.due| && sleep.due[x] > now
      ensures forall x :: 0 <= x < |home| ==>
                Roused(x, x in old(sleep.order) && sleep.due[x] <= now, old(state)[x], old(priority)[x])
    {
      ghost var q, out, states, prios := sleep.order, [], state, priority;
      var p := WakeOne(now, c, q, out, states, prios);
      while p != NULL
        invariant Leaving(c) && (old(Valid()) ==> Valid()) && |home| == old(|home|) && sleep.due == old(sleep.due)
        invariant old(Accurate(home, load)) <==> Accurate(home, load)
        invariant p != NULL ==> Progress(q, sleep.due, out + [p], now) && AllRoused(out + [p], states, prios)
        invariant p == NULL ==> Progress(q, sleep.due, out, now) && AllRoused(out, states, prios)
                                && (sleep.order == [] || sleep.due[sleep.order[0]] > now)
        decreases |sleep.order|, p != NULL
      {
        out := out + [p];
        p := WakeOne(now, c, q, out, states, prios);
      }
      DueSplit(q, sleep.due, out, sleep.order, now);
    }

    /** A process somebody has just made ready is queued; the tick it waited for may have been cleared before. */
    method EnqueueReady(x: int)
      requires Queues() && Placed(x) && Seated() && |sleep.due| == |home|
      requires sleep.Chained() && TimerQueue.SortedBut(sleep.order, sleep.due, x)
      requires 0 <= x < |home| && home[x] == NULL
      modifies this`links, this`ends, this`bitmap, this`lists, this`home, this`load, sleep
      ensures Queues() && Placed(NULL) && Seated() && sleep.Valid() && |sleep.due| == |home| && !sleep.queued[x]
      ensures home == if state[x] == Ready then old(home)[x := Key(x)] else old(home)
      ensures load == if state[x] == Ready then Raised(old(load), cpu[x]) else old(load)
      ensures state[x] == Ready ==> home[x] / 32 == 2 * cpu[x] + active[cpu[x]]
      ensures old(Accurate(home, load)) <==> Accurate(home, load)
    {
      assert Place(home[x], state[x], priority[x], cpu[x], |active|, true);
      KeyPlace(priority[x], cpu[x], active[cpu[x]], |active|);
      Unsleep(x);
      ghost var was := home;
      if state[x] == Ready {
        Enqueue(32 * (2 * cpu[x] + active[cpu[x]]) + priority[x], x);
        LimboEnds(was, x, Key(x));
        Joins(was, load, x, Key(x), cpu[x]);
        load := Raised(load, cpu[x]);
      } else {
        LimboEnds(was, x, NULL);
      }
    }

    lemma LimboEnds(was: seq<int>, x: int, k: int)
      requires |was| == |state| == |priority| == |cpu| == |slice| && 0 <= x < |was| && home == was[x := k]
      requires forall y :: 0 <= y < |was| ==> Place(was[y], state[y], priority[y], cpu[y], |active|, y == x)
      requires Place(k, state[x], priority[x], cpu[x], |active|, false)
      ensures Placed(NULL)
    {
      forall y | 0 <= y < |home| ensures Place(home[y], state[y], priority[y], cpu[y], |active|, y == NULL) {
        assert Place(was[y], state[y], priority[y], cpu[y], |active|, y == x);
      }
    }

    // ---- Looking for a process on the lists ----

    /** The walk along one list. */
    method OnList(k: int, x: int) returns (found: bool, ghost i: int)
      requires Queues() && 0 <= k < |lists|
      ensures found <==> x in lists[k]
      ensures found ==> 0 <= i < |lists[k]| && lists[k][i] == x
    {
      ghost var s, q := Store(links, ends[k]), lists[k];
      i := 0;
      ListAt(s, q, 0);
      var it := ends[k].next;
      while it != NULL
        invariant 0 <= i <= |q| && it == Pos(q, i + 1) && x !in q[..i]
        decreases |q| - i
      {
        if it == x {
          return true, i;
        }
        ListAt(s, q, i + 1);
        it := links[it].next;
        i := i + 1;
      }
      found := false;
      assert q[..i] == q;
    }

    /** The search through the lists of one array. */
    method OnArray(r: int, x: int) returns (found: bool, k: int, ghost i: int)
      requires Queues() && 0 <= r < |bitmap| && 0 <= x < |home|
      ensures found <==> home[x] / 32 == r
      ensures found ==> k == home[x] && 0 <= k < |lists| && 0 <= i < |lists[k]| && lists[k][i] == x
    {
      var j := 0;
      while j < PRIOS
        invariant 0 <= j <= PRIOS && (home[x] / 32 == r ==> home[x] >= 32 * r + j)
      {
        k := 32 * r + j;
        assert RowMarked(bitmap[r], lists, r);
        if Bit(bitmap[r], j) {
          found, i := OnList(k, x);
          if found {
            return;
          }
        }
        assert x !in lists[k];
        j := j + 1;
      }
      found, k, i := false, 0, 0;
    }

    /** Takes a process off the lists of its CPU, wherever it is. */
    method RemoveIfQueued(x: int)
      requires Queues() && Placed(NULL) && 0 <= x < |home|
      modifies this`links, this`ends, this`bitmap, this`lists, this`home
      ensures Queues() && home == old(home)[x := NULL]
    {
      assert Place(home[x], state[x], priority[x], cpu[x], |active|, x == NULL);
      var c := cpu[x];
      var found, k, i := OnArray(2 * c + active[c], x);
      if !found {
        found, k, i := OnArray(2 * c + 1 - active[c], x);
      }
      if found {
        Dequeue(k - k % 32 + priority[x], x, i);
      }
    }

    // ---- Moving a process to another CPU ----

    /** The first process of a list that is not `skip`. */
    method FirstOther(k: int, skip: int) returns (x: int, ghost i: int)
      requires Queues() && 0 <= k < |lists|
      ensures x == FirstBut(lists[k], skip)
      ensures x == NULL <==> forall y :: y in lists[k] ==> y == skip
      ensures x != NULL ==> x != skip && 0 <= i < |lists[k]| && lists[k][i] == x
    {
      ghost var s, q := Store(links, ends[k]), lists[k];
      i := 0;
      ListAt(s, q, 0);
      x := ends[k].next;
      while x != NULL
        invariant 0 <= i <= |q| && x == Pos(q, i + 1) && forall j :: 0 <= j < i ==> q[j] == skip
        invariant FirstBut(q, skip) == FirstBut(q[i..], skip)
        decreases |q| - i
      {
        if x != skip {
          assert x in q;
          return;
        }
        ListAt(s, q, i + 1);
        assert q[i..][1..] == q[i + 1..];
        x := links[x].next;
        i := i + 1;
      }
    }

    /** The least urgent process of array `r`, not counting `skip`. */
    method LeastUrgent(r: int, skip: int) returns (x: int, ghost i: int)
      requires Queues() && 0 <= r < |bitmap|
      ensures 32 * r + 32 <= |lists| && x == LeastOf(Row(lists, r), skip)
      ensures x != NULL <==> Others(r, skip)
      ensures x != NULL ==> x != skip && Last(x, r, skip) && Held(x, r, i) && x == FirstBut(lists[home[x]], skip)
    {
      var j := PRIOS;
      ghost var rows := Row(lists, r);
      assert rows[..j] == rows;
      while j > 0
        invariant 0 <= j <= PRIOS && LeastOf(rows, skip) == LeastOf(rows[..j], skip)
        invariant forall y :: 0 <= y < |home| && home[y] / 32 == r && home[y] >= 32 * r + j ==> y == skip
      {
        j := j - 1;
        assert rows[..j + 1][..j] == rows[..j] && rows[..j + 1][j] == lists[32 * r + j];
        assert RowMarked(bitmap[r], lists, r);
        if Bit(bitmap[r], j) {
          x, i := FirstOther(32 * r + j, skip);
          if x != NULL {
            assert x in lists[32 * r + j];
            return;
          }
        }
        OnlySkip(lists, home, 32 * r + j, skip);
      }
      x, i := NULL, 0;
    }

    /** `x` stands at position `i` of one of the lists of array `r`. */
    ghost predicate Held(x: int, r: int, i: int)
      reads this
    {
      && 0 <= x < |home| && 0 <= home[x] < |lists| && home[x] / 32 == r
      && 0 <= i < |lists[home[x]]| && lists[home[x]][i] == x
    }

    ghost predicate Last(x: int, r: int, skip: int)
      reads this
    {
      && 0 <= x < |home| && 0 <= home[x] < |lists| && home[x] / 32 == r
      && forall y :: 0 <= y < |home| && home[y] / 32 == r && y != skip ==> home[y] <= home[x]
    }

    /** Some process other than `skip` is on the lists of array `r`. */
    ghost predicate Others(r: int, skip: int)
      reads this
    {
      exists y :: 0 <= y < |home| && home[y] / 32 == r && y != skip
    }

    /** Some process of CPU `c` other than its idle process waits. */
    ghost predicate Movable(c: int)
      requires 0 <= c < |idle|
      reads this
    {
      exists y :: 0 <= y < |home| && home[y] / 64 == c && y != idle[c]
    }

    lemma MovableIff(c: int, a: nat)
      requires 0 <= c < |idle| && a < 2
      ensures Movable(c) <==> Others(2 * c + a, idle[c]) || Others(2 * c + 1 - a, idle[c])
    {
      forall y | 0 <= y < |home| ensures home[y] / 64 == c <==> home[y] / 32 == 2 * c + a || home[y] / 32 == 2 * c + 1 - a {
      }
    }

    /** Who is moved away from CPU `c`: the first of its least urgent waiting processes, expired ones before active ones. */
    ghost function VictimOf(c: int): int
      requires Queues() && 0 <= c < |active| && |idle| == |active|
      reads this
    {
      var x := LeastOf(Row(lists, 2 * c + 1 - active[c]), idle[c]);
      if x != NULL then x else LeastOf(Row(lists, 2 * c + active[c]), idle[c])
    }

    /** The search for that process, and where it waits. */
    method SearchVictim(c: int) returns (x: int, r: int, ghost i: int)
      requires Queues() && 0 <= c < |active| && |idle| == |active|
      ensures x == VictimOf(c)
      ensures x != NULL <==> Others(2 * c + active[c], idle[c]) || Others(2 * c + 1 - active[c], idle[c])
      ensures x != NULL ==> x != idle[c] && Last(x, r, idle[c]) && Held(x, r, i) && x == FirstBut(lists[home[x]], idle[c])
      ensures r == if Others(2 * c + 1 - active[c], idle[c]) then 2 * c + 1 - active[c] else 2 * c + active[c]
    {
      r := 2 * c + 1 - active[c];
      x, i := LeastUrgent(r, idle[c]);
      if x == NULL {
        r := 2 * c + active[c];
        x, i := LeastUrgent(r, idle[c]);
      }
    }

    /** There is such a process exactly if somebody else than the idle process waits. */
    method Victim(c: int) returns (x: int, r: int, ghost i: int)
      requires Queues() && 0 <= c < |active| && |idle| == |active|
      ensures x == VictimOf(c) && (x != NULL <==> Movable(c))
      ensures x != NULL ==> x != idle[c] && Last(x, r, idle[c]) && Held(x, r, i) && r / 2 == c
      ensures x != NULL ==> x == FirstBut(lists[home[x]], idle[c])
      ensures x != NULL && r == 2 * c + active[c] ==> !Others(2 * c + 1 - active[c], idle[c])
    {
      MovableIff(c, active[c]);
      x, r, i := SearchVictim(c);
    }

    /** `x` changes to the active lists of CPU `to`. */
    method Migrate(x: int, r: int, to: nat, ghost i: int)
      requires Queues() && Placed(NULL) && to < |active| && Held(x, r, i)
      modifies this`cpu, this`links, this`ends, this`bitmap, this`lists, this`home
      ensures Queues() && Placed(NULL) && cpu == old(cpu)[x := to] && home == old(home)[x := Key(x)]
      ensures home[x] / 32 == 2 * to + active[to]
    {
      ghost var was, cpus := home, cpu;
      assert Place(home[x], state[x], priority[x], cpu[x], |active|, x == NULL);
      KeyPlace(priority[x], to, active[to], |active|);
      Dequeue(32 * r + priority[x], x, i);
      cpu := cpu[x := to];
      Enqueue(32 * (2 * to + active[to]) + priority[x], x);
      Rehomed(was, cpus, x, Key(x), to);
    }

    lemma Rehomed(was: seq<int>, cpus: seq<nat>, x: int, k: int, to: nat)
      requires |was| == |cpus| == |state| == |priority| == |slice| && 0 <= x < |was|
      requires forall y :: 0 <= y < |was| ==> Place(was[y], state[y], priority[y], cpus[y], |active|, y == NULL)
      requires home == was[x := k] && cpu == cpus[x := to] && Place(k, state[x], priority[x], to, |active|, false)
      ensures Placed(NULL)
    {
      forall y | 0 <= y < |home| ensures Place(home[y], state[y], priority[y], cpu[y], |active|, y == NULL) {
        assert y != x ==> Place(was[y], state[y], priority[y], cpus[y], |active|, y == NULL);
      }
    }

    /** The counters go with it. */
    method MoveOver(x: int, r: int, from: nat, to: nat, ghost i: int)
      requires Queues() && Placed(NULL) && from < |active| && to < |active| && from != to && Held(x, r, i) && r / 2 == from
      modifies this`cpu, this`links, this`ends, this`bitmap, this`lists, this`home, this`load
      ensures Queues() && Placed(NULL) && cpu == old(cpu)[x := to] && home == old(home)[x := Key(x)]
      ensures load == Raised(Lowered(old(load), from), to) && (old(Accurate(home, load)) ==> Accurate(home, load))
      ensures old(cpu)[x] == from && state[x] == Ready
    {
      ghost var was, loads := home, load;
      assert Place(home[x], state[x], priority[x], cpu[x], |active|, x == NULL);
      KeyPlace(priority[x], to, active[to], |active|);
      Migrate(x, r, to, i);
      Migrates(was, loads, x, Key(x), from, to);
      load := Raised(Lowered(load, from), to);
    }

    /** CPU `most` gives its victim to CPU `least`. */
    method Relieve(most: nat, least: nat) returns (x: int)
      requires Queues() && Placed(NULL) && most < |active| && least < |active| == |idle| && most != least
      modifies this`cpu, this`links, this`ends, this`bitmap, this`lists, this`home, this`load
      ensures x == old(VictimOf(most)) && (x != NULL <==> old(Movable(most)))
      ensures x == NULL ==> unchanged(this)
      ensures x != NULL ==> 0 <= x < |old(cpu)| && old(cpu)[x] == most && x != idle[most] && state[x] == Ready
      ensures x != NULL ==> load == Raised(Lowered(old(load), most), least)
      ensures old(Accurate(home, load)) ==> Accurate(home, load)
      ensures x != NULL ==> Queues() && Placed(NULL) && cpu == old(cpu)[x := least] && home == old(home)[x := Key(x)]
    {
      var r;
      ghost var i;
      x, r, i := Victim(most);
      if x != NULL {
        MoveOver(x, r, most, least, i);
      }
    }

    /** Moving `x` leaves a CPU with a current process of another CPU exactly if `x` is the current one of its own. */
    lemma SeatedIff(was: seq<nat>, x: int, most: nat, least: nat)
      requires |current| == |idle| == |active| && |was| == |state| && most < |active| && least != most
      requires forall c :: 0 <= c < |current| ==> 0 <= current[c] < |was| && was[current[c]] == c
      requires forall c :: 0 <= c < |idle| ==> 0 <= idle[c] < |was| && was[idle[c]] == c
      requires forall y :: 0 <= y < |state| && state[y] == Running ==> was[y] < |current| && current[was[y]] == y
      requires 0 <= x < |was| && was[x] == most && x != idle[most] && state[x] == Ready && cpu == was[x := least]
      ensures Seated() <==> current[most] != x
    {
      if current[most] == x {
        assert cpu[current[most]] != most;
      }
    }

    /**
     * The busiest CPU gives one waiting process to the idlest, if their loads differ by two or more. It must
     * not be one that its CPU has yet to switch away from.
     */
    method Balance(ghost c: int) returns (x: int, most: nat, least: nat)
      requires Leaving(c) && |load| > 0 && forall i :: 0 <= i < |load| ==> load[i] < 0xFFFF_FFFF
      modifies this`cpu, this`links, this`ends, this`bitmap, this`lists, this`home, this`load
      ensures most < |old(load)| && least < |old(load)|
      ensures forall i :: 0 <= i < |old(load)| ==> old(load)[least] <= old(load)[i] <= old(load)[most]
      ensures x == if old(load)[most] >= old(load)[least] + 2 then old(VictimOf(most)) else NULL
      ensures x != NULL <==> old(load)[most] >= old(load)[least] + 2 && old(Movable(most))
      ensures x == NULL ==> unchanged(this)
      ensures x != NULL ==> 0 <= x < |old(cpu)| && old(cpu)[x] == most && x != idle[most] && cpu == old(cpu)[x := least]
      ensures x != NULL ==> Queues() && Placed(NULL) && home == old(home)[x := Key(x)]
      ensures x != NULL ==> (Seated() <==> old(VictimOf(most)) != current[most])
      ensures x != NULL ==> load == Raised(Lowered(old(load), most), least)
      ensures old(Accurate(home, load)) ==> Accurate(home, load)
      ensures old(Valid()) ==> Valid()
    {
      most, least := Extremes(load);
      if |load| <= 1 || most == least || load[most] < load[least] + 2 {
        return NULL, most, least;
      }
      ghost var was := cpu;
      x := Relieve(most, least);
      if x != NULL {
        SeatedIff(was, x, most, least);
      }
    }
  }

  lemma AllChosen(t: seq<Round>, chosen: seq<int>)
    requires |t| == |chosen| + 1 && Trace(t) && Sane(t[0]) && t[0].slice <= SLICE
    requires forall i :: 0 <= i < |chosen| ==> chosen[i] == t[i + 1].current
    ensures |chosen| >= 6 * |Everyone(t[0])| ==> forall p :: p in Everyone(t[0]) ==> p in chosen
  {
    if |chosen| >= 6 * |Everyone(t[0])| {
      forall p | p in Everyone(t[0]) ensures p in chosen {
        EveryoneRuns(t, p);
        var i :| Chosen(t, p, i) && i <= 6 * |Everyone(t[0])|;
        assert chosen[i - 1] == p;
      }
    }
  }

  /** Two CPUs run their idle processes, a third process waits for the first of them, and a fourth is blocked. */
  method FourProcesses() returns (s: Scheduler)
    ensures fresh(s) && fresh(s.sleep) && s.Valid() && |s.active| == 2 && |s.home| == 4 && s.idle == [0, 1]
    ensures s.View(0) == Round({2}, {}, 0, SLICE) && s.cpu == [0, 1, 0, 0] && s.load == [1, 0] && s.state[3] == Blocked
    ensures s.priority[2] == s.priority[3]
  {
    s := new Scheduler(2, 4);
    s.Wake(2, 0);
  }

  method TwoTicks() returns (s: Scheduler)
    ensures fresh(s) && fresh(s.sleep) && s.Valid() && |s.active| == 2 && |s.home| == 4 && s.idle == [0, 1]
    ensures s.View(0) == Round({2}, {}, 0, 0) && s.cpu == [0, 1, 0, 0] && s.load == [1, 0] && s.state[3] == Blocked
    ensures s.priority[2] == s.priority[3]
  {
    s := FourProcesses();
    s.Schedule(0);
    s.Schedule(0);
  }

  /** The third process runs. Its CPU's idle process waits, and no counter counts it. */
  method ThirdRuns() returns (s: Scheduler)
    ensures fresh(s) && fresh(s.sleep) && s.Valid() && |s.active| == 2 && |s.home| == 4 && s.idle == [0, 1]
    ensures s.View(0) == Round({}, {0}, 2, SLICE) && s.cpu == [0, 1, 0, 0] && s.load == [0, 0] && s.state[3] == Blocked
    ensures s.priority[2] == s.priority[3] && !Accurate(s.home, s.load)
  {
    s := TwoTicks();
    s.Schedule(0);
    IdleWaits(s.home, s.active[0], 0);
  }

  lemma IdleWaits(home: seq<int>, a: nat, x: int)
    requires a < 2 && x in Waiting(home, 1 - a)
    ensures |Pool(home, 0)| > 0
  {
    assert x in Pool(home, 0);
  }

  /** The third process has blocked, and its CPU has not switched yet. */
  method ThirdBlocks() returns (s: Scheduler)
    ensures fresh(s) && fresh(s.sleep) && s.Leaving(0) && |s.active| == 2 && |s.home| == 4 && s.idle == [0, 1]
    ensures s.current[0] == 2 && s.cpu == [0, 1, 0, 0] && s.load == [0, 0] && s.state[2] == s.state[3] == Blocked
    ensures s.Key(2) == s.Key(3) && 0 <= s.Key(2) < |s.lists| && s.lists[s.Key(2)] == []
  {
    s := ThirdRuns();
    KeyPlace(s.priority[2], 0, s.active[0], 2);
    s.EmptyIsNone(s.active[0]);
    NobodyThere(s.lists, s.home, s.active[0], s.Key(2));
    s.state := s.state[2 := Blocked];
  }

  lemma NobodyThere(lists: seq<seq<int>>, home: seq<int>, r: int, k: int)
    requires Homed(lists, home) && k / 32 == r && 0 <= k < |lists| && forall y :: 0 <= y < |home| ==> home[y] / 32 != r
    ensures lists[k] == []
  {
    if lists[k] != [] {
      HeadHome(lists, home, k);
      assert false;
    }
  }

  lemma HeadHome(lists: seq<seq<int>>, home: seq<int>, k: int)
    requires Homed(lists, home) && 0 <= k < |lists| && lists[k] != []
    ensures exists y :: 0 <= y < |home| && home[y] == k
  {
    assert lists[k][0] in lists[k];
    assert home[lists[k][0]] == k;
  }

  /** It has been woken. */
  method ThirdWoken() returns (s: Scheduler)
    ensures fresh(s) && fresh(s.sleep) && s.Leaving(0) && |s.active| == 2 && |s.home| == 4 && s.idle == [0, 1]
    ensures s.current[0] == 2 && s.cpu == [0, 1, 0, 0] && s.load == [1, 0] && s.state[3] == Blocked
    ensures s.home[2] == s.Key(2) == s.Key(3) && 0 <= s.home[2] < |s.lists| && s.lists[s.home[2]] == [2]
  {
    s := ThirdBlocks();
    s.Wake(2, 0);
  }

  /** The fourth process has been woken after it. */
  method BothWoken() returns (s: Scheduler)
    ensures fresh(s) && fresh(s.sleep) && s.Leaving(0) && |s.active| == 2 && |s.home| == 4 && s.idle == [0, 1]
    ensures s.current[0] == 2 && s.cpu == [0, 1, 0, 0] && s.load == [2, 0]
    ensures s.home[2] == s.home[3] == s.Key(2) && 0 <= s.home[2] < |s.lists| && s.lists[s.home[2]] == [2, 3]
  {
    s := ThirdWoken();
    s.Wake(3, 0);
  }

  /** A process that blocks and is woken before its CPU has switched away from it is the one its CPU gives away. */
  method WokenTooEarly() returns (s: Scheduler)
    ensures fresh(s) && fresh(s.sleep) && s.Leaving(0) && |s.active| == 2 && s.load == [2, 0]
    ensures s.VictimOf(0) == s.current[0] && s.cpu[s.current[0]] == 0
  {
    s := BothWoken();
    var x, r, i := s.Victim(0);
    OneOfTwo(s, x);
    assert [2, 3][0] != 0;
  }

  lemma OneOfTwo(s: Scheduler, x: int)
    requires s.Placed(NULL) && |s.home| == 4 && s.cpu == [0, 1, 0, 0] && 0 <= x < 4 && s.home[x] / 64 == 0 && x != 0
    ensures x == 2 || x == 3
  {
    assert Place(s.home[x], s.state[x], s.priority[x], s.cpu[x], |s.active|, x == NULL);
  }

  /** Such a process is moved away from under the CPU that still runs it. */
  method TornAway() returns (s: Scheduler, x: int)
    ensures |s.current| == 2 && 0 <= x < |s.cpu| && x == s.current[0] && s.cpu[x] == 1 && !s.Seated()
  {
    s := WokenTooEarly();
    assert s.load[0] == 2 && s.load[1] == 0;
    var most, least;
    x, most, least := s.Balance(0);
  }

  lemma OnlySkip(lists: seq<seq<int>>, home: seq<int>, k: int, skip: int)
    requires Homed(lists, home) && 0 <= k < |lists| && forall y :: y in lists[k] ==> y == skip
    ensures forall y :: 0 <= y < |home| && home[y] == k ==> y == skip
  {
    forall y | 0 <= y < |home| && home[y] == k ensures y == skip {
      assert y in lists[k];
    }
  }

  /** The first CPU with the largest load and the first with the smallest. */
  method Extremes(load: seq<nat>) returns (most: nat, least: nat)
    requires |load| > 0 && forall i :: 0 <= i < |load| ==> load[i] < 0xFFFF_FFFF
    ensures most < |load| && least < |load|
    ensures forall i :: 0 <= i < |load| ==> load[least] <= load[i] <= load[most]
  {
    most, least := 0, 0;
    var hi, lo, i := 0, 0xFFFF_FFFF, 0;
    while i < |load|
      invariant i <= |load| && most < |load| && least < |load|
      invariant i == 0 ==> hi == 0 && lo == 0xFFFF_FFFF && most == 0
      invariant i > 0 ==> hi == load[most] && lo == load[least]
      invariant forall j :: 0 <= j < i ==> lo <= load[j] <= hi
    {
      if load[i] > hi {
        hi, most := load[i], i;
      }
      if load[i] < lo {
        lo, least := load[i], i;
      }
      i := i + 1;
    }
  }

  lemma Assoc3(out: seq<int>, p: int, rest: seq<int>, q: seq<int>)
    requires q == out + ([p] + rest) && Distinct(q)
    ensures q == out + [p] + rest && p !in out
  {
    assert q[|out|] == p;
    forall k | 0 <= k < |out| ensures out[k] != p {
      assert q[k] != q[|out|];
    }
  }

  lemma DueSplit(q: seq<int>, due: seq<nat>, out: seq<int>, rest: seq<int>, now: nat)
    requires q == out + rest && TimerQueue.Sorted(rest, due) && (rest == [] || due[rest[0]] > now)
    requires forall x :: x in out ==> 0 <= x < |due| && due[x] <= now
    ensures forall x :: x in rest <==> x in q && 0 <= x < |due| && due[x] > now
    ensures forall x :: x in out <==> x in q && 0 <= x < |due| && due[x] <= now
  {
    forall x | x in rest ensures 0 <= x < |due| && due[x] > now {
      var k :| 0 <= k < |rest| && rest[k] == x;
    }
  }

  lemma NothingQueued(links: seq<Link>, ends: seq<Link>, bitmap: seq<nat>, lists: seq<seq<int>>)
    requires |ends| == |lists| == 32 * |bitmap|
    requires forall k :: 0 <= k < |lists| ==> ends[k] == Link(NULL, NULL) && lists[k] == []
    requires forall r :: 0 <= r < |bitmap| ==> bitmap[r] == 0
    ensures Chained(links, ends, lists) && Marked(bitmap, lists)
  {
    forall r | 0 <= r < |bitmap| ensures RowMarked(bitmap[r], lists, r) {
      forall j: nat ensures !Bit(bitmap[r], j) {
        NoBits(j);
      }
    }
  }

  lemma HeadIsNull(s: Store, q: seq<int>)
    requires List(s, q)
    ensures s.ends.next == NULL <==> q == []
  {
    ListAt(s, q, 0);
    assert q != [] ==> q[0] in q;
  }
}
