/** Any number of threads around one semaphore: every interleaving of its critical sections. */
module SemaphoreRuns {
  import opened Semaphore

  /**
   * What a thread is doing. `Granted` threads were taken off the waiter list by a signal and have not
   * run since; nothing in the kernel records this, the thread finds out by not finding itself listed.
   */
  datatype Role = Idle | Waiting | Granted | Holding

  datatype Sys = Sys(sem: Sem, st: seq<PState>, role: seq<Role>, initial: int, posts: nat, releases: nat, acquired: nat)

  datatype Step =
    | Wait(t: nat, timed: bool)
    | Wake(t: nat)      // timeout, signal or kill: the scheduler makes a waiter ready
    | Dispatch(t: nat)
    | Preempt(t: nat)
    | Leave(t: nat)
    | Release(t: nat)   // ksem_signal by a thread giving back its permit
    | Post(t: nat)      // ksem_signal adding a permit

  function Init(n: nat, initial: int): Sys {
    Sys(Sem(initial, []), seq(n, _ => Ready), seq(n, _ => Idle), initial, 0, 0, 0)
  }

  predicate Enabled(s: Sys, a: Step) {
    && a.t < |s.st| && a.t < |s.role|
    && match a
       case Wait(t, _) => s.st[t].Running? && s.role[t].Idle?
       case Wake(t) => Dormant(s.st[t])
       case Dispatch(t) => s.st[t].Ready?
       case Preempt(t) => s.st[t].Running?
       case Leave(t) => s.st[t].Running? && (s.role[t].Waiting? || s.role[t].Granted?)
       case Release(t) => s.st[t].Running? && s.role[t].Holding?
       case Post(t) => s.st[t].Running? && (s.role[t].Idle? || s.role[t].Holding?)
  }

  function AfterSignal(s: Sys): Sys {
    var c := Chosen(s.sem, s.st);
    s.(sem := SignalSem(s.sem, s.st), st := SignalStates(s.sem, s.st),
       role := if 0 <= c < |s.role| then s.role[c := Granted] else s.role,
       acquired := if c >= 0 then s.acquired + 1 else s.acquired)
  }

  function Next(s: Sys, a: Step): Sys
    requires Enabled(s, a)
  {
    match a
    case Wait(t, timed) =>
      var r := EnterResult(s.sem);
      s.(sem := EnterSem(s.sem, t), st := EnterStates(s.sem, s.st, t, timed),
         role := s.role[t := match r case Acquired => Holding case ListFull => Idle case Parked => Waiting],
         acquired := if r.Acquired? then s.acquired + 1 else s.acquired)
    case Wake(t) => s.(st := s.st[t := Ready])
    case Dispatch(t) => s.(st := s.st[t := Running])
    case Preempt(t) => s.(st := s.st[t := Ready])
    case Leave(t) =>
      s.(sem := LeaveSem(s.sem, t), role := s.role[t := if t in s.sem.waiters then Idle else Holding])
    case Release(t) => AfterSignal(s.(role := s.role[t := Idle], releases := s.releases + 1))
    case Post(t) => AfterSignal(s.(posts := s.posts + 1))
  }

  // ---- Runs ----

  predicate Legal(s: Sys, run: seq<Step>)
    decreases |run|
  {
    run == [] || (Enabled(s, run[0]) && Legal(Next(s, run[0]), run[1..]))
  }

  function After(s: Sys, run: seq<Step>): Sys
    requires Legal(s, run)
    decreases |run|
  {
    if run == [] then s else After(Next(s, run[0]), run[1..])
  }

  function Posts(run: seq<Step>): nat {
    if run == [] then 0 else (if run[0].Post? then 1 else 0) + Posts(run[1..])
  }

  // ---- The invariant ----

  /** The list holds exactly the threads still waiting, and only they may be blocked or asleep. */
  ghost predicate Listed(s: Sys) {
    && |s.st| == |s.role| && Lists(s.sem, s.role, Waiting)
    && (forall t :: 0 <= t < |s.role| && Dormant(s.st[t]) ==> s.role[t].Waiting?)
  }

  ghost function Owners(s: Sys): nat {
    multiset(s.role)[Granted] + multiset(s.role)[Holding]
  }

  /** Permits are neither made nor lost: initial ones and signals are all in the count or were acquired. */
  ghost predicate Balanced(s: Sys) {
    && s.sem.count + s.acquired == s.initial + s.posts + s.releases
    && s.acquired == s.releases + Owners(s)
  }

  ghost predicate Inv(s: Sys) {
    Listed(s) && Awake(s.sem, s.st) && Balanced(s)
  }

  lemma WaitKeeps(s: Sys, t: nat, timed: bool)
    requires Inv(s) && Enabled(s, Wait(t, timed))
    ensures Inv(Next(s, Wait(t, timed)))
  {
    var n := Next(s, Wait(t, timed));
    EnterKeeps(s.sem, s.st, s.role, Waiting, t, timed, n.role[t]);
    assert multiset(n.role) == multiset(s.role) - multiset{Idle} + multiset{n.role[t]};
  }

  lemma LeaveStepKeeps(s: Sys, t: nat)
    requires Inv(s) && Enabled(s, Leave(t))
    ensures Inv(Next(s, Leave(t)))
  {
    var n := Next(s, Leave(t));
    LeaveKeeps(s.sem, s.st, s.role, Waiting, t, n.role[t]);
    assert multiset(n.role) == multiset(s.role) - multiset{s.role[t]} + multiset{n.role[t]};
  }

  /** The books before a signal lack the one permit it is about to add. */
  lemma SignalBalances(s: Sys)
    requires Listed(s) && Awake(s.sem, s.st) && s.sem.count != INT32_MAX
    requires s.acquired == s.releases + Owners(s)
    requires s.sem.count + s.acquired + 1 == s.initial + s.posts + s.releases
    ensures Inv(AfterSignal(s))
  {
    var n := AfterSignal(s);
    SignalKeeps(s.sem, s.st, s.role, Waiting, Granted);
    var c := Chosen(s.sem, s.st);
    if c >= 0 {
      assert multiset(n.role) == multiset(s.role) - multiset{Waiting} + multiset{Granted};
    }
  }

  lemma RoleChange(role: seq<Role>, t: nat, r: Role)
    requires t < |role|
    ensures multiset(role[t := r]) == multiset(role) - multiset{role[t]} + multiset{r}
  {
  }

  predicate Signals(a: Step) {
    a.Release? || a.Post?
  }

  /** The system as `a` signals it. */
  function Before(s: Sys, a: Step): Sys
    requires Enabled(s, a) && Signals(a)
  {
    if a.Release? then s.(role := s.role[a.t := Idle], releases := s.releases + 1) else s.(posts := s.posts + 1)
  }

  /** All is in order, but the permit the signal is about to add is already in the books. */
  lemma SignalReady(s: Sys, a: Step)
    requires Inv(s) && Enabled(s, a) && Signals(a)
    ensures var r := Before(s, a);
            && Listed(r) && Awake(r.sem, r.st) && r.acquired == r.releases + Owners(r)
            && r.sem.count + r.acquired + 1 == r.initial + r.posts + r.releases
    ensures a.Release? ==> Owners(s) > 0
  {
    if a.Release? {
      RoleChange(s.role, a.t, Idle);
    }
  }

  /** The 32-bit count comes round: the books cannot balance any more. */
  lemma SignalOverflows(s: Sys)
    requires Listed(s) && Awake(s.sem, s.st) && s.sem.count == INT32_MAX
    requires s.sem.count + s.acquired + 1 == s.initial + s.posts + s.releases
    ensures !Balanced(AfterSignal(s))
  {
    SignalKeeps(s.sem.(count := 1), s.st, s.role, Waiting, Granted);
  }

  /** Every step keeps the invariant, except a signal when the count is at its largest value. */
  lemma StepKeeps(s: Sys, a: Step)
    requires Inv(s) && Enabled(s, a)
    ensures Inv(Next(s, a)) <==> !(Signals(a) && s.sem.count == INT32_MAX)
  {
    if Signals(a) {
      SignalReady(s, a);
      if s.sem.count == INT32_MAX {
        SignalOverflows(Before(s, a));
      } else {
        SignalBalances(Before(s, a));
      }
    } else if a.Wait? {
      WaitKeeps(s, a.t, a.timed);
    } else if a.Leave? {
      LeaveStepKeeps(s, a.t);
    }
  }

  /** No signal of the run finds the count at its largest value. */
  predicate Counted(s: Sys, run: seq<Step>)
    requires Legal(s, run)
    decreases |run|
  {
    run != [] ==> !(Signals(run[0]) && s.sem.count == INT32_MAX) && Counted(Next(s, run[0]), run[1..])
  }

  /**
   * In every run of any number of threads, with any timeouts, kills and preemptions, in which the 32-bit
   * count does not come round: conservation, and no lost wake-up.
   */
  lemma {:induction false} RunKeeps(s: Sys, run: seq<Step>)
    requires Inv(s) && Legal(s, run) && Counted(s, run)
    ensures Inv(After(s, run))
    ensures After(s, run).initial == s.initial && After(s, run).posts == s.posts + Posts(run)
    decreases |run|
  {
    if run != [] {
      StepKeeps(s, run[0]);
      RunKeeps(Next(s, run[0]), run[1..]);
    }
  }

  /** The count does not come round while the permits made available fit into 32 bits. */
  lemma {:induction false} FewPermits(s: Sys, run: seq<Step>)
    requires Inv(s) && Legal(s, run) && s.initial + s.posts + Posts(run) <= INT32_MAX
    ensures Counted(s, run)
    decreases |run|
  {
    if run != [] {
      if Signals(run[0]) {
        SignalReady(s, run[0]);
      }
      StepKeeps(s, run[0]);
      FewPermits(Next(s, run[0]), run[1..]);
    }
  }

  lemma InitInv(n: nat, initial: int)
    requires 0 <= initial
    ensures Inv(Init(n, initial))
  {
    var s := Init(n, initial);
    assert forall r :: r in multiset(s.role) ==> r in s.role;
  }

  /** A semaphore that starts with all the permits the count can hold, and is signalled. */
  lemma CountComesRound(s: Sys, d: Sys)
    requires s == Init(1, INT32_MAX) && d == Next(s, Dispatch(0))
    ensures Inv(s) && Inv(d) && Enabled(d, Post(0)) && !Inv(Next(d, Post(0)))
  {
    InitInv(1, INT32_MAX);
    StepKeeps(s, Dispatch(0));
    StepKeeps(d, Post(0));
  }

  // ---- Timed and untimed waits ----

  /** The last wait of thread `t` was a timed one. */
  predicate TimedWait(run: seq<Step>, t: nat) {
    run != [] &&
    var a := run[|run| - 1];
    if a.Wait? && a.t == t then a.timed else TimedWait(run[..|run| - 1], t)
  }

  /** Only a timed wait puts a thread to sleep for the timer to wake; an untimed one blocks it. */
  ghost predicate Timely(s: Sys, run: seq<Step>) {
    forall t :: 0 <= t < |s.st| && Dormant(s.st[t]) ==> (s.st[t].Sleeping? <==> TimedWait(run, t))
  }

  lemma LastWait(run: seq<Step>, a: Step, t: nat)
    ensures TimedWait(run + [a], t) == if a.Wait? && a.t == t then a.timed else TimedWait(run, t)
  {
    var h := run + [a];
    assert h[..|h| - 1] == run && h[|h| - 1] == a;
  }

  lemma StepTimely(s: Sys, run: seq<Step>, a: Step)
    requires Timely(s, run) && Enabled(s, a)
    ensures Timely(Next(s, a), run + [a])
  {
    var n := Next(s, a);
    forall t | 0 <= t < |n.st| && Dormant(n.st[t]) ensures n.st[t].Sleeping? <==> TimedWait(run + [a], t) {
      LastWait(run, a, t);
    }
  }

  lemma {:induction false} RunTimely(s: Sys, before: seq<Step>, run: seq<Step>)
    requires Timely(s, before) && Legal(s, run)
    ensures Timely(After(s, run), before + run)
    decreases |run|
  {
    if run == [] {
      assert before + run == before;
    } else {
      StepTimely(s, before, run[0]);
      RunTimely(Next(s, run[0]), before + [run[0]], run[1..]);
      assert before + [run[0]] + run[1..] == before + run;
    }
  }

  /** In every run a waiting thread is asleep, so that a timeout can wake it, exactly if its wait is a timed one. */
  lemma SleepsIffTimed(n: nat, initial: int, run: seq<Step>, t: nat)
    requires Legal(Init(n, initial), run)
    ensures var s := After(Init(n, initial), run);
            t < |s.st| && Dormant(s.st[t]) ==> (s.st[t].Sleeping? <==> TimedWait(run, t))
  {
    RunTimely(Init(n, initial), [], run);
    assert [] + run == run;
  }

  // ---- The mutex: a semaphore that starts at one and is only signalled by its holder ----

  lemma {:induction false} RoleCount(r: seq<Role>, t: nat, u: nat, x: Role, y: Role)
    requires t < u < |r| && r[t] == x && r[u] == y
    ensures x == y ==> multiset(r)[x] >= 2
    ensures x != y ==> multiset(r)[x] >= 1 && multiset(r)[y] >= 1
  {
    var a, b := r[..u], r[u..];
    assert r == a + b && a[t] == x && b[0] == y;
    assert x in a && y in b;
  }

  /** At most one thread is inside, whatever timeouts, kills and spurious wake-ups occur. */
  lemma MutexExclusion(n: nat, run: seq<Step>, t: nat, u: nat)
    requires Legal(Init(n, 1), run) && Posts(run) == 0
    ensures var s := After(Init(n, 1), run);
            t < u < |s.role| ==> !(s.role[t].Holding? && s.role[u].Holding?)
  {
    InitInv(n, 1);
    FewPermits(Init(n, 1), run);
    RunKeeps(Init(n, 1), run);
    var s := After(Init(n, 1), run);
    if t < u < |s.role| && s.role[t].Holding? {
      RoleCount(s.role, t, u, s.role[t], s.role[u]);
    }
  }

  /** A thread sleeps on the mutex only while some thread holds it or has just been handed it. */
  lemma MutexNotStuck(n: nat, run: seq<Step>)
    requires Legal(Init(n, 1), run) && Posts(run) == 0
    ensures var s := After(Init(n, 1), run);
            (exists t :: 0 <= t < |s.st| && Dormant(s.st[t])) ==> Owners(s) == 1
  {
    InitInv(n, 1);
    FewPermits(Init(n, 1), run);
    RunKeeps(Init(n, 1), run);
    var s := After(Init(n, 1), run);
    if t :| 0 <= t < |s.st| && Dormant(s.st[t]) {
      assert t in s.sem.waiters && DormantAt(s.st, t);
    }
  }
}
