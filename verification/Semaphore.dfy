/** The counting semaphore of src/kernel/sync.c: its critical sections, in place and as functions on values. */
module Semaphore {
  import opened Seqs

  const MAX_WAITERS := 64
  const INT32_MAX := 0x7FFF_FFFF

  /** Scheduling state of a thread; threads are numbered by their slot in the process table. */
  datatype PState = Ready | Running | Blocked | Sleeping

  datatype Sem = Sem(count: int, waiters: seq<int>)

  /** How the first critical section of a wait ends. */
  datatype Entry = Acquired | ListFull | Parked

  predicate Dormant(p: PState) {
    p.Blocked? || p.Sleeping?
  }

  predicate DormantAt(st: seq<PState>, t: int) {
    0 <= t < |st| && Dormant(st[t])
  }

  /** Where the first waiter still blocked or sleeping stands in the list, or the length of the list. */
  function FirstDormant(ws: seq<int>, st: seq<PState>, from: nat): (i: nat)
    requires from <= |ws|
    ensures from <= i <= |ws|
    ensures i < |ws| ==> DormantAt(st, ws[i])
    ensures forall j :: from <= j < i ==> !DormantAt(st, ws[j])
    decreases |ws| - from
  {
    if from == |ws| || DormantAt(st, ws[from]) then from else FirstDormant(ws, st, from + 1)
  }

  function IndexOf(ws: seq<int>, t: int, from: nat): (i: nat)
    requires from <= |ws|
    ensures from <= i <= |ws|
    ensures i < |ws| ==> ws[i] == t
    ensures forall j :: from <= j < i ==> ws[j] != t
    decreases |ws| - from
  {
    if from == |ws| || ws[from] == t then from else IndexOf(ws, t, from + 1)
  }

  // ---- The critical sections as functions ----

  function EnterResult(s: Sem): Entry {
    if s.count > 0 then Acquired else if |s.waiters| >= MAX_WAITERS then ListFull else Parked
  }

  function EnterSem(s: Sem, t: int): Sem {
    match EnterResult(s)
    case Acquired => s.(count := s.count - 1)
    case ListFull => s
    case Parked => s.(waiters := s.waiters + [t])
  }

  function EnterStates(s: Sem, st: seq<PState>, t: int, timed: bool): seq<PState> {
    if EnterResult(s).Parked? && 0 <= t < |st| then st[t := if timed then Sleeping else Blocked] else st
  }

  /** A thread that has to wait goes to the end of the list, and sleeps exactly if its wait is timed. */
  lemma EnterDoes(s: Sem, st: seq<PState>, t: nat, timed: bool)
    requires t < |st|
    ensures s.count > 0 ==> EnterSem(s, t) == s.(count := s.count - 1)
    ensures s.count <= 0 && |s.waiters| < MAX_WAITERS ==> EnterSem(s, t) == s.(waiters := s.waiters + [t])
    ensures s.count <= 0 && |s.waiters| >= MAX_WAITERS ==> EnterSem(s, t) == s
    ensures var n := EnterStates(s, st, t, timed);
            && |n| == |st| && (forall u :: 0 <= u < |st| && u != t ==> n[u] == st[u])
            && if EnterResult(s).Parked? then n[t] == (if timed then Sleeping else Blocked) else n == st
  {
  }

  /** The second critical section: a thread still listed takes itself off the list. */
  function LeaveSem(s: Sem, t: int): Sem {
    var i := IndexOf(s.waiters, t, 0);
    if i < |s.waiters| then s.(waiters := Without(s.waiters, i)) else s
  }

  /** The waiter a signal hands its permit to, or -1. */
  function Chosen(s: Sem, st: seq<PState>): int {
    var i := FirstDormant(s.waiters, st, 0);
    if i < |s.waiters| then s.waiters[i] else -1
  }

  function Increment32(n: int): int {
    if n == INT32_MAX then -INT32_MAX - 1 else n + 1
  }

  function SignalSem(s: Sem, st: seq<PState>): Sem {
    var i := FirstDormant(s.waiters, st, 0);
    if i < |s.waiters| then s.(waiters := Without(s.waiters, i)) else s.(count := Increment32(s.count))
  }

  function SignalStates(s: Sem, st: seq<PState>): seq<PState> {
    var t := Chosen(s, st);
    if 0 <= t < |st| then st[t := Ready] else st
  }

  // ---- Waiting threads ----

  lemma WithoutContents(ws: seq<int>, i: nat)
    requires i < |ws| && Distinct(ws)
    ensures Distinct(Without(ws, i))
    ensures forall t :: t in Without(ws, i) <==> t in ws && t != ws[i]
  {
    forall t ensures t in Without(ws, i) <==> t in ws && t != ws[i] {
      WithoutMembers(ws, i, t);
    }
  }

  /** The list holds exactly the threads whose role is `w`, each once. */
  ghost predicate Lists<R>(s: Sem, role: seq<R>, w: R) {
    && |s.waiters| <= MAX_WAITERS && Distinct(s.waiters)
    && (forall t :: t in s.waiters ==> 0 <= t < |role| && role[t] == w)
    && (forall t :: 0 <= t < |role| && role[t] == w ==> t in s.waiters)
  }

  /** No lost wake-up: while a permit is there, no listed waiter is asleep. */
  ghost predicate Awake(s: Sem, st: seq<PState>) {
    && 0 <= s.count
    && (s.count > 0 ==> forall t :: t in s.waiters ==> !DormantAt(st, t))
  }

  lemma EnterKeeps<R>(s: Sem, st: seq<PState>, role: seq<R>, w: R, t: nat, timed: bool, x: R)
    requires Lists(s, role, w) && Awake(s, st) && t < |role| && t < |st| && role[t] != w
    requires x == w <==> EnterResult(s).Parked?
    ensures Lists(EnterSem(s, t), role[t := x], w) && Awake(EnterSem(s, t), EnterStates(s, st, t, timed))
  {
    assert t !in s.waiters;
  }

  lemma LeaveKeeps<R>(s: Sem, st: seq<PState>, role: seq<R>, w: R, t: nat, x: R)
    requires Lists(s, role, w) && Awake(s, st) && t < |role| && x != w
    ensures Lists(LeaveSem(s, t), role[t := x], w) && Awake(LeaveSem(s, t), st)
  {
    var i := IndexOf(s.waiters, t, 0);
    if i < |s.waiters| {
      WithoutContents(s.waiters, i);
    }
  }

  /** A thread not on this list may change its role, or wake, or fall asleep elsewhere. */
  lemma OtherKeeps<R>(s: Sem, st: seq<PState>, role: seq<R>, w: R, t: nat, x: R, st': seq<PState>)
    requires Lists(s, role, w) && Awake(s, st) && t < |role| && role[t] != w && x != w
    requires |st'| == |st| && forall u :: 0 <= u < |st| && u != t ==> st'[u] == st[u] || !Dormant(st'[u])
    ensures Lists(s, role[t := x], w) && Awake(s, st')
  {
    assert t !in s.waiters;
  }

  /** A signal hands its permit to one waiter or adds it to the count; `g` is the role of a waiter served. */
  lemma SignalKeeps<R>(s: Sem, st: seq<PState>, role: seq<R>, w: R, g: R)
    requires Lists(s, role, w) && Awake(s, st) && g != w && s.count != INT32_MAX
    ensures var c := Chosen(s, st);
            && Lists(SignalSem(s, st), if 0 <= c < |role| then role[c := g] else role, w)
            && Awake(SignalSem(s, st), SignalStates(s, st))
            && (c >= 0 ==> c < |role| && role[c] == w && DormantAt(st, c) && SignalSem(s, st).count == s.count)
            && (c < 0 ==> SignalSem(s, st).count == s.count + 1)
  {
    var i := FirstDormant(s.waiters, st, 0);
    if i < |s.waiters| {
      assert s.waiters[i] in s.waiters;
      WithoutContents(s.waiters, i);
    } else {
      assert forall t :: t in s.waiters ==> !DormantAt(st, t);
    }
  }

  // ---- The semaphore itself ----

  class KSem {
    var count: int
    const waiters: array<int>
    var nwaiters: nat

    /** Unused slots of the waiter array are null, written -1. */
    ghost predicate Valid()
      reads this, waiters
    {
      && waiters.Length == MAX_WAITERS && nwaiters <= MAX_WAITERS
      && forall i :: nwaiters <= i < MAX_WAITERS ==> waiters[i] == -1
    }

    ghost function View(): Sem
      reads this, waiters
      requires Valid()
    {
      Sem(count, waiters[..nwaiters])
    }

    constructor (initial: int)
      ensures Valid() && View() == Sem(initial, []) && fresh(waiters)
    {
      count := initial;
      nwaiters := 0;
      waiters := new int[MAX_WAITERS](_ => -1);
    }

    /** Close the gap at slot `i` by shifting the later waiters down. */
    method RemoveSlot(i: nat)
      requires Valid() && i < nwaiters
      modifies this`nwaiters, waiters
      ensures Valid() && View() == Sem(count, Without(old(View()).waiters, i))
    {
      ghost var ws := waiters[..nwaiters];
      var j := i;
      while j + 1 < nwaiters
        invariant i <= j < nwaiters == old(nwaiters)
        invariant forall k :: 0 <= k < i ==> waiters[k] == ws[k]
        invariant forall k :: i <= k < j ==> waiters[k] == ws[k + 1]
        invariant forall k :: j <= k < nwaiters ==> waiters[k] == ws[k]
        invariant forall k :: nwaiters <= k < MAX_WAITERS ==> waiters[k] == -1
      {
        waiters[j] := waiters[j + 1];
        j := j + 1;
      }
      nwaiters := nwaiters - 1;
      waiters[nwaiters] := -1;
      assert waiters[..nwaiters] == Without(ws, i);
    }

    /** From taking the lock to releasing it before `schedule()`. */
    method WaitEnter(t: nat, timed: bool, procs: array<PState>) returns (r: Entry)
      requires Valid() && t < procs.Length
      modifies this, waiters, procs
      ensures Valid()
      ensures r == EnterResult(old(View()))
      ensures View() == EnterSem(old(View()), t)
      ensures procs[..] == EnterStates(old(View()), old(procs[..]), t, timed)
    {
      if count > 0 {
        count := count - 1;
        return Acquired;
      }
      if nwaiters >= MAX_WAITERS {
        return ListFull;
      }
      ghost var ws := waiters[..nwaiters];
      waiters[nwaiters] := t;
      nwaiters := nwaiters + 1;
      assert waiters[..nwaiters] == ws + [t];
      procs[t] := Blocked;
      if timed {
        procs[t] := Sleeping;
      }
      return Parked;
    }

    /** From taking the lock again after `schedule()` to the verdict: still listed means not signalled. */
    method WaitLeave(t: nat) returns (found: bool)
      requires Valid()
      modifies this, waiters
      ensures Valid()
      ensures found <==> t in old(View()).waiters
      ensures View() == LeaveSem(old(View()), t)
    {
      found := false;
      var i := 0;
      while i < nwaiters
        invariant 0 <= i <= nwaiters
        invariant forall j :: 0 <= j < i ==> waiters[j] != t
        invariant IndexOf(waiters[..nwaiters], t, 0) == IndexOf(waiters[..nwaiters], t, i)
        invariant Valid() && View() == old(View())
      {
        if waiters[i] == t {
          assert IndexOf(waiters[..nwaiters], t, i) == i;
          RemoveSlot(i);
          found := true;
          return;
        }
        i := i + 1;
      }
    }

    method Signal(procs: array<PState>) returns (woken: int)
      requires Valid()
      modifies this, waiters, procs
      ensures Valid()
      ensures woken == Chosen(old(View()), old(procs[..]))
      ensures View() == SignalSem(old(View()), old(procs[..]))
      ensures procs[..] == SignalStates(old(View()), old(procs[..]))
    {
      woken := -1;
      var i := 0;
      while i < nwaiters
        invariant 0 <= i <= nwaiters
        invariant FirstDormant(waiters[..nwaiters], procs[..], 0) == FirstDormant(waiters[..nwaiters], procs[..], i)
        invariant Valid() && View() == old(View()) && procs[..] == old(procs[..])
      {
        var p := waiters[i];
        if 0 <= p < procs.Length && Dormant(procs[p]) {
          assert FirstDormant(waiters[..nwaiters], procs[..], i) == i;
          RemoveSlot(i);
          procs[p] := Ready;
          woken := p;
          return;
        }
        i := i + 1;
      }
      count := Increment32(count);
    }
  }
}
