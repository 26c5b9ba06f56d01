/** The mailbox of src/kernel/sync.c: a ring of messages guarded by two counting semaphores. */
module Mailbox {
  import opened Semaphore

  const MAX_MSGS := 32

  // ---- The ring ----

  datatype Ring = Ring(slots: seq<int>, head: int, tail: int, count: int, capacity: int)

  function Slot(head: int, i: int, capacity: int): int {
    if head + i < capacity then head + i else head + i - capacity
  }

  ghost predicate RingOk(r: Ring) {
    && |r.slots| == MAX_MSGS && 1 <= r.capacity <= MAX_MSGS
    && 0 <= r.head < r.capacity && 0 <= r.count <= r.capacity
    && r.tail == (if r.count == r.capacity then r.head else Slot(r.head, r.count, r.capacity))
  }

  /** The messages in the ring, oldest first. */
  ghost function Contents(r: Ring): seq<int>
    requires RingOk(r)
  {
    seq(r.count, i requires 0 <= i < r.count => r.slots[Slot(r.head, i, r.capacity)])
  }

  function Put(r: Ring, m: int): Ring
    requires 0 <= r.tail < |r.slots| && r.capacity > 0
  {
    r.(slots := r.slots[r.tail := m], tail := (r.tail + 1) % r.capacity, count := r.count + 1)
  }

  function Take(r: Ring): Ring
    requires r.capacity > 0
  {
    r.(head := (r.head + 1) % r.capacity, count := r.count - 1)
  }

  lemma Wrap(i: int, capacity: int)
    requires 0 <= i < capacity
    ensures (i + 1) % capacity == if i + 1 == capacity then 0 else i + 1
  {
  }

  lemma PutAppends(r: Ring, m: int)
    requires RingOk(r) && r.count < r.capacity
    ensures RingOk(Put(r, m)) && Contents(Put(r, m)) == Contents(r) + [m]
  {
    Wrap(r.tail, r.capacity);
    var p := Put(r, m);
    assert forall i :: 0 <= i < r.count ==> Slot(p.head, i, p.capacity) != r.tail;
  }

  lemma TakeRemoves(r: Ring)
    requires RingOk(r) && r.count > 0
    ensures RingOk(Take(r)) && Contents(r) == [r.slots[r.head]] + Contents(Take(r))
  {
    Wrap(r.head, r.capacity);
    var q := Take(r);
    assert forall i :: 0 <= i < q.count ==> Slot(q.head, i, q.capacity) == Slot(r.head, i + 1, r.capacity);
  }

  class KMailbox {
    const msgs: array<int>
    var head: int
    var tail: int
    var count: int
    const capacity: int

    ghost function View(): Ring
      reads this, msgs
    {
      Ring(msgs[..], head, tail, count, capacity)
    }

    constructor (size: nat)
      ensures RingOk(View()) && Contents(View()) == [] && fresh(msgs)
      ensures capacity == if 1 <= size <= MAX_MSGS then size else MAX_MSGS
    {
      msgs := new int[MAX_MSGS](_ => 0);
      head, tail, count := 0, 0, 0;
      capacity := if size == 0 || size > MAX_MSGS then MAX_MSGS else size;
    }

    /** The locked section of `kmbox_post`. */
    method Insert(m: int)
      requires RingOk(View()) && count < capacity
      modifies this, msgs
      ensures View() == Put(old(View()), m)
    {
      msgs[tail] := m;
      tail := (tail + 1) % capacity;
      count := count + 1;
    }

    /** The locked section of `kmbox_fetch`. */
    method Remove() returns (m: int)
      requires RingOk(View()) && count > 0
      modifies this
      ensures m == old(View()).slots[old(head)] && View() == Take(old(View()))
    {
      m := msgs[head];
      head := (head + 1) % capacity;
      count := count - 1;
    }
  }

  // ---- Threads posting and fetching ----

  datatype Role =
    | Idle
    | PostWaiting | PostGranted | PostOwning | PostTelling
    | FetchWaiting | FetchGranted | FetchOwning | FetchTelling

  /** `posted` and `fetched` record the messages in the order the ring took them in and gave them out. */
  datatype Sys = Sys(
    notFull: Sem, notEmpty: Sem, ring: Ring,
    st: seq<PState>, role: seq<Role>, msg: seq<int>,
    posted: seq<int>, fetched: seq<int>)

  datatype Step =
    | PostStart(t: nat, m: int)
    | PostResume(t: nat)
    | PostInsert(t: nat)
    | PostSignal(t: nat)
    | FetchStart(t: nat, timed: bool)
    | FetchResume(t: nat)
    | FetchRemove(t: nat)
    | FetchSignal(t: nat)
    | Wake(t: nat)
    | Dispatch(t: nat)
    | Preempt(t: nat)

  function Init(n: nat, size: nat): Sys {
    var c := if size == 0 || size > MAX_MSGS then MAX_MSGS else size;
    Sys(Sem(c, []), Sem(0, []), Ring(seq(MAX_MSGS, _ => 0), 0, 0, 0, c),
        seq(n, _ => Ready), seq(n, _ => Idle), seq(n, _ => 0), [], [])
  }

  predicate Enabled(s: Sys, a: Step) {
    && a.t < |s.st| && a.t < |s.role| && a.t < |s.msg|
    && match a
       case Wake(t) => Dormant(s.st[t])
       case Dispatch(t) => s.st[t].Ready?
       case Preempt(t) => s.st[t].Running?
       case PostStart(t, _) => s.st[t].Running? && s.role[t].Idle?
       case PostResume(t) => s.st[t].Running? && (s.role[t].PostWaiting? || s.role[t].PostGranted?)
       case PostInsert(t) => s.st[t].Running? && s.role[t].PostOwning?
       case PostSignal(t) => s.st[t].Running? && s.role[t].PostTelling?
       case FetchStart(t, _) => s.st[t].Running? && s.role[t].Idle?
       case FetchResume(t) => s.st[t].Running? && (s.role[t].FetchWaiting? || s.role[t].FetchGranted?)
       case FetchRemove(t) => s.st[t].Running? && s.role[t].FetchOwning?
       case FetchSignal(t) => s.st[t].Running? && s.role[t].FetchTelling?
  }

  /** The locked sections index the ring without a check; this is what must hold for them to be sound. */
  ghost predicate Safe(s: Sys, a: Step) {
    && (a.PostInsert? ==> RingOk(s.ring) && s.ring.count < s.ring.capacity)
    && (a.FetchRemove? ==> RingOk(s.ring) && s.ring.count > 0)
  }

  function Entered(s: Sem, own: Role, wait: Role): Role {
    match EnterResult(s)
    case Acquired => own
    case ListFull => Idle
    case Parked => wait
  }

  function Served(role: seq<Role>, c: int, g: Role): seq<Role> {
    if 0 <= c < |role| then role[c := g] else role
  }

  ghost function Next(s: Sys, a: Step): Sys
    requires Enabled(s, a) && Safe(s, a)
  {
    match a
    case Wake(t) => s.(st := s.st[t := Ready])
    case Dispatch(t) => s.(st := s.st[t := Running])
    case Preempt(t) => s.(st := s.st[t := Ready])
    case PostStart(t, m) =>
      s.(notFull := EnterSem(s.notFull, t), st := EnterStates(s.notFull, s.st, t, false),
         role := s.role[t := Entered(s.notFull, PostOwning, PostWaiting)], msg := s.msg[t := m])
    case PostResume(t) =>
      s.(notFull := LeaveSem(s.notFull, t),
         role := s.role[t := if t in s.notFull.waiters then Idle else PostOwning])
    case PostInsert(t) =>
      s.(ring := Put(s.ring, s.msg[t]), role := s.role[t := PostTelling], posted := s.posted + [s.msg[t]])
    case PostSignal(t) =>
      s.(notEmpty := SignalSem(s.notEmpty, s.st), st := SignalStates(s.notEmpty, s.st),
         role := Served(s.role[t := Idle], Chosen(s.notEmpty, s.st), FetchGranted))
    case FetchStart(t, timed) =>
      s.(notEmpty := EnterSem(s.notEmpty, t), st := EnterStates(s.notEmpty, s.st, t, timed),
         role := s.role[t := Entered(s.notEmpty, FetchOwning, FetchWaiting)])
    case FetchResume(t) =>
      s.(notEmpty := LeaveSem(s.notEmpty, t),
         role := s.role[t := if t in s.notEmpty.waiters then Idle else FetchOwning])
    case FetchRemove(t) =>
      var m := s.ring.slots[s.ring.head];
      s.(ring := Take(s.ring), role := s.role[t := FetchTelling], msg := s.msg[t := m], fetched := s.fetched + [m])
    case FetchSignal(t) =>
      s.(notFull := SignalSem(s.notFull, s.st), st := SignalStates(s.notFull, s.st),
         role := Served(s.role[t := Idle], Chosen(s.notFull, s.st), PostGranted))
  }

  // ---- The invariant ----

  ghost predicate Parking(s: Sys) {
    && |s.st| == |s.role| == |s.msg|
    && Lists(s.notFull, s.role, PostWaiting) && Awake(s.notFull, s.st)
    && Lists(s.notEmpty, s.role, FetchWaiting) && Awake(s.notEmpty, s.st)
    && forall t :: 0 <= t < |s.role| && Dormant(s.st[t]) ==> s.role[t].PostWaiting? || s.role[t].FetchWaiting?
  }

  /** Each slot of the ring is a free permit, in use by a poster, full, or about to be handed back. */
  ghost predicate SlotsBalance(s: Sys) {
    var n := multiset(s.role);
    s.notFull.count + n[PostGranted] + n[PostOwning] + s.ring.count + n[FetchTelling] == s.ring.capacity
  }

  /** Each message in the ring is a free permit, promised to a fetcher, or about to be announced. */
  ghost predicate MessagesBalance(s: Sys) {
    var n := multiset(s.role);
    s.notEmpty.count + n[FetchGranted] + n[FetchOwning] + n[PostTelling] == s.ring.count
  }

  /** What came out is what went in, in the same order, short of what is still in the ring. */
  ghost predicate InOrder(s: Sys) {
    RingOk(s.ring) && s.posted == s.fetched + Contents(s.ring)
  }

  ghost predicate Books(s: Sys) {
    |s.st| == |s.role| == |s.msg| && SlotsBalance(s) && MessagesBalance(s) && InOrder(s)
  }

  ghost predicate Inv(s: Sys) {
    Parking(s) && Books(s)
  }

  lemma Recount(role: seq<Role>, t: nat, x: Role)
    requires t < |role|
    ensures multiset(role[t := x]) == multiset(role) - multiset{role[t]} + multiset{x}
    ensures multiset(role)[role[t]] >= 1
  {
    assert role[t] in role;
  }

  /** No step ever meets a full ring with a message to insert, or an empty one with a message to take. */
  lemma StepIsSafe(s: Sys, a: Step)
    requires Inv(s) && Enabled(s, a)
    ensures Safe(s, a)
  {
    Recount(s.role, a.t, Idle);
  }

  // Each step: first that the lists stay right, then that the books still balance.

  lemma PostStartParks(s: Sys, t: nat, m: int)
    requires Parking(s) && Enabled(s, PostStart(t, m))
    ensures Parking(Next(s, PostStart(t, m)))
  {
    var n := Next(s, PostStart(t, m));
    EnterKeeps(s.notFull, s.st, s.role, PostWaiting, t, false, n.role[t]);
    OtherKeeps(s.notEmpty, s.st, s.role, FetchWaiting, t, n.role[t], n.st);
  }

  lemma PostStartBooks(s: Sys, t: nat, m: int)
    requires Books(s) && Enabled(s, PostStart(t, m))
    ensures Books(Next(s, PostStart(t, m)))
  {
    Recount(s.role, t, Entered(s.notFull, PostOwning, PostWaiting));
  }

  lemma PostResumeParks(s: Sys, t: nat)
    requires Parking(s) && Enabled(s, PostResume(t))
    ensures Parking(Next(s, PostResume(t)))
  {
    var n := Next(s, PostResume(t));
    LeaveKeeps(s.notFull, s.st, s.role, PostWaiting, t, n.role[t]);
    OtherKeeps(s.notEmpty, s.st, s.role, FetchWaiting, t, n.role[t], n.st);
  }

  lemma PostResumeBooks(s: Sys, t: nat)
    requires Books(s) && Enabled(s, PostResume(t)) && (t in s.notFull.waiters <==> s.role[t].PostWaiting?)
    ensures Books(Next(s, PostResume(t)))
  {
    Recount(s.role, t, if t in s.notFull.waiters then Idle else PostOwning);
  }

  lemma PostInsertParks(s: Sys, t: nat)
    requires Parking(s) && Enabled(s, PostInsert(t)) && Safe(s, PostInsert(t))
    ensures Parking(Next(s, PostInsert(t)))
  {
    OtherKeeps(s.notFull, s.st, s.role, PostWaiting, t, PostTelling, s.st);
    OtherKeeps(s.notEmpty, s.st, s.role, FetchWaiting, t, PostTelling, s.st);
  }

  lemma PostInsertBooks(s: Sys, t: nat)
    requires Books(s) && Enabled(s, PostInsert(t)) && Safe(s, PostInsert(t))
    ensures Books(Next(s, PostInsert(t)))
  {
    Recount(s.role, t, PostTelling);
    PutAppends(s.ring, s.msg[t]);
  }

  lemma PostSignalParks(s: Sys, t: nat)
    requires Parking(s) && Enabled(s, PostSignal(t)) && s.notEmpty.count < INT32_MAX
    ensures Parking(Next(s, PostSignal(t)))
  {
    var n := Next(s, PostSignal(t));
    var r := s.role[t := Idle];
    OtherKeeps(s.notEmpty, s.st, s.role, FetchWaiting, t, Idle, s.st);
    OtherKeeps(s.notFull, s.st, s.role, PostWaiting, t, Idle, s.st);
    SignalKeeps(s.notEmpty, s.st, r, FetchWaiting, FetchGranted);
    var c := Chosen(s.notEmpty, s.st);
    if c >= 0 {
      OtherKeeps(s.notFull, s.st, r, PostWaiting, c, FetchGranted, n.st);
    }
  }

  lemma SignalRecount(q: Sem, st: seq<PState>, role: seq<Role>, t: nat, w: Role, g: Role)
    requires Lists(q, role, w) && Awake(q, st) && q.count < INT32_MAX
    requires t < |role| && role[t] != w && g != w && w != Idle
    ensures var c := Chosen(q, st);
            var n := multiset(role) - multiset{role[t]} + multiset{Idle};
            && multiset(role)[role[t]] >= 1
            && SignalSem(q, st).count == (if c >= 0 then q.count else q.count + 1)
            && (c >= 0 ==> n[w] >= 1)
            && multiset(Served(role[t := Idle], c, g)) == if c >= 0 then n - multiset{w} + multiset{g} else n
  {
    Recount(role, t, Idle);
    OtherKeeps(q, st, role, w, t, Idle, st);
    SignalKeeps(q, st, role[t := Idle], w, g);
    var c := Chosen(q, st);
    if c >= 0 {
      Recount(role[t := Idle], c, g);
    }
  }

  /** What a signal does to one semaphore and to the roles, as far as the books are concerned. */
  ghost predicate Settles(q: Sem, q': Sem, role: seq<Role>, role': seq<Role>, t: nat, w: Role, g: Role)
    requires t < |role|
  {
    var n := multiset(role) - multiset{role[t]} + multiset{Idle};
    && multiset(role)[role[t]] >= 1
    && ((q'.count == q.count && n[w] >= 1 && multiset(role') == n - multiset{w} + multiset{g})
        || (q'.count == q.count + 1 && multiset(role') == n))
  }

  lemma PostSignalBooks(s: Sys, t: nat, q: Sem, st: seq<PState>, role: seq<Role>)
    requires Books(s) && t < |s.role| && s.role[t].PostTelling? && |st| == |role| == |s.role|
    requires Settles(s.notEmpty, q, s.role, role, t, FetchWaiting, FetchGranted)
    ensures Books(s.(notEmpty := q, st := st, role := role))
  {
  }

  lemma PostSignalKeeps(s: Sys, t: nat)
    requires Inv(s) && Enabled(s, PostSignal(t))
    ensures Inv(Next(s, PostSignal(t)))
  {
    PostSignalParks(s, t);
    SignalRecount(s.notEmpty, s.st, s.role, t, FetchWaiting, FetchGranted);
    var n := Next(s, PostSignal(t));
    PostSignalBooks(s, t, n.notEmpty, n.st, n.role);
  }

  lemma FetchStartParks(s: Sys, t: nat, timed: bool)
    requires Parking(s) && Enabled(s, FetchStart(t, timed))
    ensures Parking(Next(s, FetchStart(t, timed)))
  {
    var n := Next(s, FetchStart(t, timed));
    EnterKeeps(s.notEmpty, s.st, s.role, FetchWaiting, t, timed, n.role[t]);
    OtherKeeps(s.notFull, s.st, s.role, PostWaiting, t, n.role[t], n.st);
  }

  lemma FetchStartBooks(s: Sys, t: nat, timed: bool)
    requires Books(s) && Enabled(s, FetchStart(t, timed))
    ensures Books(Next(s, FetchStart(t, timed)))
  {
    Recount(s.role, t, Entered(s.notEmpty, FetchOwning, FetchWaiting));
  }

  lemma FetchResumeParks(s: Sys, t: nat)
    requires Parking(s) && Enabled(s, FetchResume(t))
    ensures Parking(Next(s, FetchResume(t)))
  {
    var n := Next(s, FetchResume(t));
    LeaveKeeps(s.notEmpty, s.st, s.role, FetchWaiting, t, n.role[t]);
    OtherKeeps(s.notFull, s.st, s.role, PostWaiting, t, n.role[t], n.st);
  }

  lemma FetchResumeBooks(s: Sys, t: nat)
    requires Books(s) && Enabled(s, FetchResume(t)) && (t in s.notEmpty.waiters <==> s.role[t].FetchWaiting?)
    ensures Books(Next(s, FetchResume(t)))
  {
    Recount(s.role, t, if t in s.notEmpty.waiters then Idle else FetchOwning);
  }

  lemma FetchRemoveParks(s: Sys, t: nat)
    requires Parking(s) && Enabled(s, FetchRemove(t)) && Safe(s, FetchRemove(t))
    ensures Parking(Next(s, FetchRemove(t)))
  {
    OtherKeeps(s.notFull, s.st, s.role, PostWaiting, t, FetchTelling, s.st);
    OtherKeeps(s.notEmpty, s.st, s.role, FetchWaiting, t, FetchTelling, s.st);
  }

  lemma FetchRemoveBooks(s: Sys, t: nat)
    requires Books(s) && Enabled(s, FetchRemove(t)) && Safe(s, FetchRemove(t))
    ensures Books(Next(s, FetchRemove(t)))
  {
    Recount(s.role, t, FetchTelling);
    TakeRemoves(s.ring);
  }

  lemma FetchSignalParks(s: Sys, t: nat)
    requires Parking(s) && Enabled(s, FetchSignal(t)) && s.notFull.count < INT32_MAX
    ensures Parking(Next(s, FetchSignal(t)))
  {
    var n := Next(s, FetchSignal(t));
    var r := s.role[t := Idle];
    OtherKeeps(s.notEmpty, s.st, s.role, FetchWaiting, t, Idle, s.st);
    OtherKeeps(s.notFull, s.st, s.role, PostWaiting, t, Idle, s.st);
    SignalKeeps(s.notFull, s.st, r, PostWaiting, PostGranted);
    var c := Chosen(s.notFull, s.st);
    if c >= 0 {
      OtherKeeps(s.notEmpty, s.st, r, FetchWaiting, c, PostGranted, n.st);
    }
  }

  lemma FetchSignalBooks(s: Sys, t: nat, q: Sem, st: seq<PState>, role: seq<Role>)
    requires Books(s) && t < |s.role| && s.role[t].FetchTelling? && |st| == |role| == |s.role|
    requires Settles(s.notFull, q, s.role, role, t, PostWaiting, PostGranted)
    ensures Books(s.(notFull := q, st := st, role := role))
  {
  }

  lemma FetchSignalKeeps(s: Sys, t: nat)
    requires Inv(s) && Enabled(s, FetchSignal(t))
    ensures Inv(Next(s, FetchSignal(t)))
  {
    FetchSignalParks(s, t);
    SignalRecount(s.notFull, s.st, s.role, t, PostWaiting, PostGranted);
    var n := Next(s, FetchSignal(t));
    FetchSignalBooks(s, t, n.notFull, n.st, n.role);
  }

  lemma StepKeeps(s: Sys, a: Step)
    requires Inv(s) && Enabled(s, a)
    ensures Safe(s, a) && Inv(Next(s, a))
  {
    StepIsSafe(s, a);
    match a
    case PostStart(t, m) => PostStartParks(s, t, m); PostStartBooks(s, t, m);
    case PostResume(t) => PostResumeParks(s, t); PostResumeBooks(s, t);
    case PostInsert(t) => PostInsertParks(s, t); PostInsertBooks(s, t);
    case PostSignal(t) => PostSignalKeeps(s, t);
    case FetchStart(t, timed) => FetchStartParks(s, t, timed); FetchStartBooks(s, t, timed);
    case FetchResume(t) => FetchResumeParks(s, t); FetchResumeBooks(s, t);
    case FetchRemove(t) => FetchRemoveParks(s, t); FetchRemoveBooks(s, t);
    case FetchSignal(t) => FetchSignalKeeps(s, t);
    case _ =>
  }

  // ---- Runs ----

  /** A run takes only enabled steps; whether each is safe is what has to be shown. */
  ghost predicate Reaches(s: Sys, run: seq<Step>, e: Sys)
    decreases |run|
  {
    if run == [] then s == e
    else Enabled(s, run[0]) && Safe(s, run[0]) && Reaches(Next(s, run[0]), run[1..], e)
  }

  ghost predicate Stuck(s: Sys, a: Step) {
    Enabled(s, a) && !Safe(s, a)
  }

  lemma InitInv(n: nat, size: nat)
    ensures Inv(Init(n, size))
  {
    var s := Init(n, size);
    assert forall r :: r in multiset(s.role) ==> r in s.role;
  }

  lemma {:induction false} RunKeeps(s: Sys, run: seq<Step>, e: Sys)
    requires Inv(s) && Reaches(s, run, e)
    ensures Inv(e)
    decreases |run|
  {
    if run != [] {
      StepKeeps(s, run[0]);
      RunKeeps(Next(s, run[0]), run[1..], e);
    }
  }

  // ---- What a run posts, read off its steps ----

  /** The message thread `t` was last asked to post. */
  function Asked(run: seq<Step>, t: nat): int {
    if run == [] then 0 else
    var a := run[|run| - 1];
    if a.PostStart? && a.t == t then a.m else Asked(run[..|run| - 1], t)
  }

  /** The messages posted, in the order of the insertions. */
  function Posts(run: seq<Step>): seq<int> {
    if run == [] then [] else
    var before, a := run[..|run| - 1], run[|run| - 1];
    if a.PostInsert? then Posts(before) + [Asked(before, a.t)] else Posts(before)
  }

  /** How many messages have been taken out. */
  function Removals(run: seq<Step>): nat {
    if run == [] then 0 else Removals(run[..|run| - 1]) + if run[|run| - 1].FetchRemove? then 1 else 0
  }

  predicate Posting(r: Role) {
    r.PostWaiting? || r.PostGranted? || r.PostOwning?
  }

  /** A thread that is posting still has its message. */
  ghost predicate Carries(role: seq<Role>, msg: seq<int>, run: seq<Step>) {
    |role| == |msg| && forall t :: 0 <= t < |role| && Posting(role[t]) ==> msg[t] == Asked(run, t)
  }

  /** The books agree with the steps taken. */
  ghost predicate Told(s: Sys, run: seq<Step>) {
    s.posted == Posts(run) && |s.fetched| == Removals(run) && Carries(s.role, s.msg, run)
  }

  lemma LastStep(run: seq<Step>, a: Step)
    ensures Posts(run + [a]) == if a.PostInsert? then Posts(run) + [Asked(run, a.t)] else Posts(run)
    ensures Removals(run + [a]) == Removals(run) + if a.FetchRemove? then 1 else 0
  {
    var h := run + [a];
    assert h[..|h| - 1] == run && h[|h| - 1] == a;
  }

  lemma LastAsked(run: seq<Step>, a: Step, t: nat)
    ensures Asked(run + [a], t) == if a.PostStart? && a.t == t then a.m else Asked(run, t)
  {
    var h := run + [a];
    assert h[..|h| - 1] == run && h[|h| - 1] == a;
  }

  /** Thread `a.t` has taken step `a`; nobody else has got a message or become a poster. */
  lemma CarriesOn(role: seq<Role>, msg: seq<int>, role': seq<Role>, msg': seq<int>, run: seq<Step>, a: Step)
    requires Carries(role, msg, run) && |role'| == |msg'| == |role| && a.t < |role|
    requires forall u :: 0 <= u < |role| && u != a.t ==> msg'[u] == msg[u] && (Posting(role'[u]) ==> Posting(role[u]))
    requires Posting(role'[a.t]) ==> if a.PostStart? then msg'[a.t] == a.m else Posting(role[a.t]) && msg'[a.t] == msg[a.t]
    ensures Carries(role', msg', run + [a])
  {
    forall u | 0 <= u < |role'| && Posting(role'[u]) ensures msg'[u] == Asked(run + [a], u) {
      LastAsked(run, a, u);
    }
  }

  /** A signal makes no one a poster but one that was waiting to be. */
  lemma SignalCarries(s: Sys, a: Step, u: nat)
    requires Inv(s) && Enabled(s, a) && (a.PostSignal? || a.FetchSignal?) && u < |s.role|
    ensures var n := Next(s, a);
            |n.role| == |s.role| && n.msg == s.msg && !Posting(n.role[a.t])
            && (u != a.t && Posting(n.role[u]) ==> Posting(s.role[u]))
  {
  }

  lemma OwnCarries(s: Sys, a: Step, u: nat)
    requires Enabled(s, a) && Safe(s, a) && !a.PostSignal? && !a.FetchSignal? && u < |s.role| == |s.msg|
    ensures var n := Next(s, a);
            |n.role| == |n.msg| == |s.role| && (u != a.t ==> n.role[u] == s.role[u] && n.msg[u] == s.msg[u])
            && (Posting(n.role[a.t]) ==>
                  if a.PostStart? then n.msg[a.t] == a.m else Posting(s.role[a.t]) && n.msg[a.t] == s.msg[a.t])
  {
  }

  lemma StepCarries(s: Sys, run: seq<Step>, a: Step)
    requires Inv(s) && Enabled(s, a) && Safe(s, a) && Carries(s.role, s.msg, run)
    ensures Carries(Next(s, a).role, Next(s, a).msg, run + [a])
  {
    var n := Next(s, a);
    forall u | 0 <= u < |s.role|
      ensures |n.role| == |n.msg| == |s.role|
      ensures u != a.t ==> n.msg[u] == s.msg[u] && (Posting(n.role[u]) ==> Posting(s.role[u]))
    {
      if a.PostSignal? || a.FetchSignal? {
        SignalCarries(s, a, u);
      } else {
        OwnCarries(s, a, u);
      }
    }
    if a.PostSignal? || a.FetchSignal? {
      SignalCarries(s, a, a.t);
    } else {
      OwnCarries(s, a, a.t);
    }
    CarriesOn(s.role, s.msg, n.role, n.msg, run, a);
  }

  lemma StepBooks(s: Sys, run: seq<Step>, a: Step)
    requires Told(s, run) && Enabled(s, a) && Safe(s, a)
    ensures Next(s, a).posted == Posts(run + [a]) && |Next(s, a).fetched| == Removals(run + [a])
  {
    LastStep(run, a);
  }

  lemma StepTold(s: Sys, run: seq<Step>, a: Step)
    requires Inv(s) && Enabled(s, a) && Told(s, run)
    ensures Safe(s, a) && Inv(Next(s, a)) && Told(Next(s, a), run + [a])
  {
    StepKeeps(s, a);
    StepCarries(s, run, a);
    StepBooks(s, run, a);
  }

  lemma Rejoin(before: seq<Step>, run: seq<Step>)
    ensures if run == [] then before + run == before else before + [run[0]] + run[1..] == before + run
  {
  }

  lemma {:induction false} RunTold(s: Sys, before: seq<Step>, run: seq<Step>, e: Sys)
    requires Inv(s) && Told(s, before) && Reaches(s, run, e)
    ensures Told(e, before + run)
    decreases |run|
  {
    Rejoin(before, run);
    if run != [] {
      StepTold(s, before, run[0]);
      RunTold(Next(s, run[0]), before + [run[0]], run[1..], e);
    }
  }

  /**
   * For any number of threads and any interleaving of posts, fetches, timeouts and kills: what goes into the ring
   * is what was posted, messages come out exactly once and in the order they went in, the ring never holds more
   * than its capacity, and no thread is about to insert into a full ring or to read an empty one.
   */
  lemma MailboxFifo(n: nat, size: nat, run: seq<Step>, e: Sys)
    requires Reaches(Init(n, size), run, e)
    ensures e.posted == Posts(run) && |e.fetched| == Removals(run)
    ensures e.fetched <= e.posted && RingOk(e.ring) && e.posted == e.fetched + Contents(e.ring)
    ensures |e.posted| - |e.fetched| <= e.ring.capacity
    ensures forall a :: !Stuck(e, a)
  {
    InitInv(n, size);
    RunKeeps(Init(n, size), run, e);
    RunTold(Init(n, size), [], run, e);
    assert [] + run == run;
    forall a ensures !Stuck(e, a) {
      if Enabled(e, a) {
        StepIsSafe(e, a);
      }
    }
  }

  /** The thread that takes out the k-th message holds the k-th message posted. */
  lemma FetchDelivers(n: nat, size: nat, run: seq<Step>, e: Sys, t: nat)
    requires Reaches(Init(n, size), run, e) && Enabled(e, FetchRemove(t))
    ensures Safe(e, FetchRemove(t)) && Removals(run) < |Posts(run)|
    ensures Contents(e.ring) != [] && Next(e, FetchRemove(t)).msg[t] == Contents(e.ring)[0] == Posts(run)[Removals(run)]
  {
    InitInv(n, size);
    RunKeeps(Init(n, size), run, e);
    MailboxFifo(n, size, run, e);
    StepIsSafe(e, FetchRemove(t));
    TakeRemoves(e.ring);
    assert e.posted[|e.fetched|] == Contents(e.ring)[0];
  }

  /** No thread is between two of its critical sections. */
  ghost predicate Quiet(s: Sys) {
    forall t :: 0 <= t < |s.role| ==> s.role[t].Idle? || s.role[t].PostWaiting? || s.role[t].FetchWaiting?
  }

  /** When all is quiet, a poster sleeps only on a full ring and a fetcher only on an empty one: never both. */
  lemma NoMissedWork(n: nat, size: nat, run: seq<Step>, e: Sys, t: nat)
    requires Reaches(Init(n, size), run, e) && Quiet(e)
    requires t < |e.st| && t < |e.role| && Dormant(e.st[t])
    ensures e.role[t].PostWaiting? ==> e.ring.count == e.ring.capacity
    ensures e.role[t].FetchWaiting? ==> e.ring.count == 0
  {
    InitInv(n, size);
    RunKeeps(Init(n, size), run, e);
    assert forall r :: r in multiset(e.role) ==> r in e.role;
    assert DormantAt(e.st, t);
  }

  // ---- The non-blocking variants ----

  /** The locked section of `kmbox_trypost`: it checks the ring but takes no permit. */
  function TryInsert(s: Sys, t: nat, m: int): Sys
    requires t < |s.role| && 0 <= s.ring.tail < |s.ring.slots| && s.ring.capacity > 0
  {
    if s.ring.count >= s.ring.capacity then s
    else s.(ring := Put(s.ring, m), role := s.role[t := PostTelling], posted := s.posted + [m])
  }

  /** The locked section of `kmbox_tryfetch`. */
  function TryRemove(s: Sys, t: nat): Sys
    requires t < |s.role| && 0 <= s.ring.head < |s.ring.slots| && s.ring.capacity > 0
  {
    if s.ring.count == 0 then s
    else s.(ring := Take(s.ring), role := s.role[t := FetchTelling], fetched := s.fetched + [s.ring.slots[s.ring.head]])
  }

  /** Both upset the permits exactly when they move a message, although they keep the order of messages. */
  lemma TryInsertUpsets(s: Sys, t: nat, m: int)
    requires Books(s) && t < |s.role| && s.role[t].Idle?
    ensures SlotsBalance(TryInsert(s, t, m)) <==> s.ring.count == s.ring.capacity
    ensures InOrder(TryInsert(s, t, m))
  {
    Recount(s.role, t, PostTelling);
    if s.ring.count < s.ring.capacity {
      PutAppends(s.ring, m);
    }
  }

  lemma TryRemoveUpsets(s: Sys, t: nat)
    requires Books(s) && t < |s.role| && s.role[t].Idle?
    ensures MessagesBalance(TryRemove(s, t)) <==> s.ring.count == 0
    ensures InOrder(TryRemove(s, t))
  {
    Recount(s.role, t, FetchTelling);
    if s.ring.count > 0 {
      TakeRemoves(s.ring);
    }
  }

  /** One thread, one slot: a `trypost` and then a `post` is about to overwrite the unread message. */
  lemma TryPostOverflows()
    ensures var s1 := Next(Init(1, 1), Dispatch(0));
            var s2 := Next(TryInsert(s1, 0, 7), PostSignal(0));
            var s3 := Next(s2, PostStart(0, 8));
            Stuck(s3, PostInsert(0))
  {
    var s1 := Next(Init(1, 1), Dispatch(0));
    Wrap(0, 1);
    var s2 := Next(TryInsert(s1, 0, 7), PostSignal(0));
    assert FirstDormant([], s1.st, 0) == 0;
    assert s2.notFull == Sem(1, []) && s2.ring.count == 1;
  }

  /** One thread that has posted one message into a mailbox of one slot. */
  ghost predicate Loaded(e: Sys) {
    && RingOk(e.ring) && e.ring.capacity == 1 && e.ring.count == 1
    && e.notEmpty == Sem(1, []) && e.notFull == Sem(0, [])
    && e.st == [Running] && e.role == [Idle] && |e.msg| == 1
  }

  lemma OnePost(s: Sys, m: int) returns (e: Sys)
    requires s.st == [Running] && s.role == [Idle] && |s.msg| == 1 && s.notFull == Sem(1, []) && s.notEmpty == Sem(0, [])
    requires RingOk(s.ring) && s.ring.capacity == 1 && s.ring.count == 0
    ensures Reaches(s, [PostStart(0, m), PostInsert(0), PostSignal(0)], e) && Loaded(e)
  {
    var s1 := Next(s, PostStart(0, m));
    PutAppends(s1.ring, m);
    var s2 := Next(s1, PostInsert(0));
    assert FirstDormant([], s2.st, 0) == 0;
    e := Next(s2, PostSignal(0));
    var r3: seq<Step> := [];
    var r2 := [PostSignal(0)] + r3;
    var r1 := [PostInsert(0)] + r2;
    var r0 := [PostStart(0, m)] + r1;
    assert r2[1..] == r3 && r1[1..] == r2 && r0[1..] == r1;
    assert Reaches(s2, r2, e) && Reaches(s1, r1, e) && Reaches(s, r0, e);
    assert r0 == [PostStart(0, m), PostInsert(0), PostSignal(0)];
  }

  /** After a `tryfetch` in such a state, a `fetch` is about to read an empty ring. */
  lemma LoadedUnderflows(e: Sys)
    requires Loaded(e)
    ensures var t := TryRemove(e, 0);
            && Enabled(t, FetchSignal(0)) && var u := Next(t, FetchSignal(0));
            && Enabled(u, FetchStart(0, false)) && Stuck(Next(u, FetchStart(0, false)), FetchRemove(0))
  {
    var t := TryRemove(e, 0);
    assert t.role == [FetchTelling] && t.ring.count == 0;
    assert FirstDormant([], t.st, 0) == 0;
  }

  /** One thread, one slot: a `post`, a `tryfetch` and a `fetch` read a message that is not there. */
  lemma TryFetchUnderflows() returns (e: Sys)
    ensures Reaches(Next(Init(1, 1), Dispatch(0)), [PostStart(0, 7), PostInsert(0), PostSignal(0)], e) && Loaded(e)
    ensures var u := Next(TryRemove(e, 0), FetchSignal(0)); Stuck(Next(u, FetchStart(0, false)), FetchRemove(0))
  {
    e := OnePost(Next(Init(1, 1), Dispatch(0)), 7);
    LoadedUnderflows(e);
  }
}
