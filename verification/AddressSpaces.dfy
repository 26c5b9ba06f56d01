/** Shared address spaces: the CLONE_VM reference table of src/kernel/scheduler.c and who destroys a space when. */
module AddressSpaces {

  const REFCOUNT_MAX := 64

  // ---- The table ----

  datatype Slot = Slot(space: int, count: nat)

  /** First slot that holds `s`, or the length of the table; free slots hold 0. */
  function Find(t: seq<Slot>, s: int, from: nat): (i: nat)
    requires from <= |t|
    ensures from <= i <= |t| && (i < |t| ==> t[i].space == s)
    ensures forall j :: from <= j < i ==> t[j].space != s
    decreases |t| - from
  {
    if from == |t| || t[from].space == s then from else Find(t, s, from + 1)
  }

  function Get(t: seq<Slot>, s: int): nat {
    var i := Find(t, s, 0);
    if s != 0 && i < |t| then t[i].count else 0
  }

  function Inc(t: seq<Slot>, s: int): seq<Slot> {
    if s == 0 then t else
    var i := Find(t, s, 0);
    if i < |t| then t[i := Slot(s, t[i].count + 1)] else
    var j := Find(t, 0, 0);
    if j < |t| then t[j := Slot(s, 1)] else t
  }

  function Dec(t: seq<Slot>, s: int): seq<Slot> {
    var i := Find(t, s, 0);
    if s == 0 || i == |t| then t
    else if t[i].count > 1 then t[i := Slot(s, t[i].count - 1)]
    else t[i := Slot(0, 0)]
  }

  class RefTable {
    const slots: array<Slot>

    constructor ()
      ensures slots.Length == REFCOUNT_MAX && forall i :: 0 <= i < REFCOUNT_MAX ==> slots[i] == Slot(0, 0)
      ensures fresh(slots)
    {
      slots := new Slot[REFCOUNT_MAX](_ => Slot(0, 0));
    }

    method FindSlot(s: int) returns (i: nat)
      ensures i == Find(slots[..], s, 0)
    {
      i := 0;
      while i < slots.Length && slots[i].space != s
        invariant 0 <= i <= slots.Length
        invariant Find(slots[..], s, 0) == Find(slots[..], s, i)
      {
        i := i + 1;
      }
    }

    /** `as_refcount_inc`. */
    method Increment(s: int)
      modifies slots
      ensures slots[..] == Inc(old(slots[..]), s)
    {
      if s == 0 {
        return;
      }
      var i := FindSlot(s);
      if i < slots.Length {
        slots[i] := Slot(s, slots[i].count + 1);
        return;
      }
      var j := FindSlot(0);
      if j < slots.Length {
        slots[j] := Slot(s, 1);
      }
    }

    /** `as_refcount_dec`: the count left. */
    method Decrement(s: int) returns (r: nat)
      modifies slots
      ensures slots[..] == Dec(old(slots[..]), s)
      ensures r == if Get(old(slots[..]), s) > 0 then Get(old(slots[..]), s) - 1 else 0
    {
      if s == 0 {
        return 0;
      }
      var i := FindSlot(s);
      if i == slots.Length {
        return 0;
      }
      r := if slots[i].count > 0 then slots[i].count - 1 else 0;
      slots[i] := if r == 0 then Slot(0, 0) else Slot(s, r);
    }
  }

  /** Each space has one slot at most, and a slot in use counts someone. */
  ghost predicate TableOk(t: seq<Slot>) {
    && (forall i :: 0 <= i < |t| ==> (t[i].space == 0 <==> t[i].count == 0))
    && (forall i, j :: 0 <= i < j < |t| && t[i].space == t[j].space ==> t[i].space == 0)
  }

  ghost predicate HasRoom(t: seq<Slot>) {
    exists i :: 0 <= i < |t| && t[i].space == 0
  }

  lemma GetAt(t: seq<Slot>, i: nat)
    requires TableOk(t) && i < |t| && t[i].space != 0
    ensures Get(t, t[i].space) == t[i].count > 0
  {
    var k := Find(t, t[i].space, 0);
  }

  lemma IncCounts(t: seq<Slot>, s: int)
    requires TableOk(t) && s != 0 && (Get(t, s) > 0 || HasRoom(t))
    ensures TableOk(Inc(t, s)) && Get(Inc(t, s), s) == Get(t, s) + 1
    ensures forall x :: x != s ==> Get(Inc(t, s), x) == Get(t, x)
  {
    var u := Inc(t, s);
    var i := Find(t, s, 0);
    var k := if i < |t| then i else Find(t, 0, 0);
    GetAt(u, k);
    forall x | x != s ensures Get(u, x) == Get(t, x) {
      if x != 0 {
        SameElsewhere(t, u, k, x);
      }
    }
  }

  /** Changing one slot matters only to the spaces it held before and after. */
  lemma SameElsewhere(t: seq<Slot>, u: seq<Slot>, k: nat, x: int)
    requires k < |t| && |u| == |t| && u == t[k := u[k]] && t[k].space != x && u[k].space != x
    ensures Get(u, x) == Get(t, x)
  {
    var a, b := Find(t, x, 0), Find(u, x, 0);
    assert a < |t| ==> u[a].space == x;
    assert b < |u| ==> t[b].space == x;
  }

  lemma DecCounts(t: seq<Slot>, s: int)
    requires TableOk(t) && s != 0 && Get(t, s) > 0
    ensures TableOk(Dec(t, s)) && Get(Dec(t, s), s) == Get(t, s) - 1
    ensures forall x :: x != s ==> Get(Dec(t, s), x) == Get(t, x)
  {
    var u := Dec(t, s);
    var k := Find(t, s, 0);
    if t[k].count > 1 {
      GetAt(u, k);
    } else {
      assert forall j :: 0 <= j < |u| ==> u[j].space != s;
    }
    forall x | x != s ensures Get(u, x) == Get(t, x) {
      if x != 0 {
        SameElsewhere(t, u, k, x);
      }
    }
  }

  // ---- Processes ----

  /** A process that runs in user space `space`; threads share theirs. */
  datatype Proc = Proc(space: int, thread: bool)

  /** `alive` are the address spaces created and not yet destroyed. */
  datatype Sys = Sys(table: seq<Slot>, procs: map<int, Proc>, alive: set<int>)

  ghost function Users(s: Sys, x: int): set<int> {
    set p | p in s.procs && s.procs[p].space == x
  }

  ghost predicate Housed(s: Sys) {
    forall p :: p in s.procs ==> s.procs[p].space != 0 && s.procs[p].space in s.alive
  }

  ghost predicate Inhabited(s: Sys) {
    forall x :: x in s.alive ==> x != 0 && Users(s, x) != {}
  }

  ghost predicate Counted(s: Sys) {
    forall x :: Get(s.table, x) > 0 ==> Get(s.table, x) == |Users(s, x)|
  }

  ghost predicate Lone(s: Sys) {
    forall p :: p in s.procs && Get(s.table, s.procs[p].space) == 0 ==>
      !s.procs[p].thread && Users(s, s.procs[p].space) == {p}
  }

  /**
   * A space is alive exactly while it has users. Its entry counts them; without an entry there is a single
   * user, and that is not a thread.
   */
  ghost predicate Inv(s: Sys) {
    && |s.table| == REFCOUNT_MAX && TableOk(s.table)
    && Housed(s) && Inhabited(s) && Counted(s) && Lone(s)
  }

  /** One process in a space of its own, and an empty table. */
  lemma InitInv(p: int, x: int)
    requires x != 0
    ensures Inv(Sys(seq(REFCOUNT_MAX, _ => Slot(0, 0)), map[p := Proc(x, false)], {x}))
  {
    var s := Sys(seq(REFCOUNT_MAX, _ => Slot(0, 0)), map[p := Proc(x, false)], {x});
    assert p in Users(s, x);
  }

  datatype Step =
    | Fork(parent: int, child: int, space: int)   // without CLONE_VM; `space` is what the clone of the parent's got
    | ForkFails(parent: int, space: int)          // no kernel stack: the new space is destroyed again
    | Share(parent: int, child: int)              // CLONE_VM
    | ShareFails(parent: int)                     // CLONE_VM, no kernel stack: the references are taken back
    | Reap(p: int)

  predicate Enabled(s: Sys, a: Step) {
    match a
    case Fork(p, c, x) => p in s.procs && c !in s.procs && x != 0 && x !in s.alive
    case ForkFails(p, x) => p in s.procs && x != 0 && x !in s.alive
    case Share(p, c) => p in s.procs && c !in s.procs
    case ShareFails(p) => p in s.procs
    case Reap(p) => p in s.procs
  }

  /** The references `process_clone_create` takes: the parent's own if it had none, then the child's. */
  function Shared(t: seq<Slot>, x: int): seq<Slot> {
    Inc(if Get(t, x) == 0 then Inc(t, x) else t, x)
  }

  function Unshared(t: seq<Slot>, x: int, addedParent: bool): seq<Slot> {
    if addedParent then Dec(Dec(t, x), x) else Dec(t, x)
  }

  /** Whether `process_reap_locked` destroys the address space of the process it reaps. */
  predicate Destroys(t: seq<Slot>, p: Proc) {
    if p.thread || Get(t, p.space) > 0 then Get(t, p.space) <= 1 else true
  }

  function ReapTable(t: seq<Slot>, p: Proc): seq<Slot> {
    if p.thread || Get(t, p.space) > 0 then Dec(t, p.space) else t
  }

  function Next(s: Sys, a: Step): Sys
    requires Enabled(s, a)
  {
    match a
    case Fork(p, c, x) => s.(procs := s.procs[c := Proc(x, false)], alive := s.alive + {x})
    case ForkFails(p, x) => s
    case Share(p, c) =>
      var x := s.procs[p].space;
      s.(table := Shared(s.table, x), procs := s.procs[c := Proc(x, true)])
    case ShareFails(p) =>
      var x := s.procs[p].space;
      s.(table := Unshared(Shared(s.table, x), x, Get(s.table, x) == 0))
    case Reap(p) =>
      var q := s.procs[p];
      s.(table := ReapTable(s.table, q), procs := s.procs - {p},
         alive := if Destroys(s.table, q) then s.alive - {q.space} else s.alive)
  }

  /** A shared clone finds its entry or a free slot for it. */
  ghost predicate Roomy(s: Sys, a: Step) {
    a.Share? && a.parent in s.procs ==> Get(s.table, s.procs[a.parent].space) > 0 || HasRoom(s.table)
  }

  lemma SharedCounts(t: seq<Slot>, x: int)
    requires TableOk(t) && x != 0 && (Get(t, x) > 0 || HasRoom(t))
    ensures TableOk(Shared(t, x)) && |Shared(t, x)| == |t|
    ensures Get(Shared(t, x), x) == if Get(t, x) == 0 then 2 else Get(t, x) + 1
    ensures forall y :: y != x ==> Get(Shared(t, x), y) == Get(t, y)
  {
    IncCounts(t, x);
    IncCounts(if Get(t, x) == 0 then Inc(t, x) else t, x);
  }

  /** The failure path leaves every count as it was, with room in the table or without. */
  lemma UnsharedCounts(t: seq<Slot>, x: int)
    requires TableOk(t) && x != 0
    ensures var u := Unshared(Shared(t, x), x, Get(t, x) == 0);
            TableOk(u) && |u| == |t| && forall y :: Get(u, y) == Get(t, y)
  {
    if Get(t, x) > 0 || HasRoom(t) {
      SharedCounts(t, x);
      DecCounts(Shared(t, x), x);
      if Get(t, x) == 0 {
        DecCounts(Dec(Shared(t, x), x), x);
      }
    } else {
      FullTableForgets(t, x);
    }
  }

  lemma ForkKeeps(s: Sys, p: int, c: int, x: int)
    requires Inv(s) && Enabled(s, Fork(p, c, x))
    ensures Inv(Next(s, Fork(p, c, x)))
  {
    var n := Next(s, Fork(p, c, x));
    assert forall q :: q in s.procs ==> s.procs[q].space != x;
    assert Users(s, x) == {};
    forall y ensures Users(n, y) == if y == x then {c} else Users(s, y) {
    }
    assert c in Users(n, x);
  }

  lemma ShareKeeps(s: Sys, p: int, c: int)
    requires Inv(s) && Enabled(s, Share(p, c)) && Roomy(s, Share(p, c))
    ensures Inv(Next(s, Share(p, c)))
  {
    var n := Next(s, Share(p, c));
    var x := s.procs[p].space;
    SharedCounts(s.table, x);
    forall y ensures Users(n, y) == if y == x then Users(s, x) + {c} else Users(s, y) {
    }
    assert c !in Users(s, x);
    assert Get(s.table, x) == 0 ==> Users(s, x) == {p};
  }

  /** Process `p` is gone: one user fewer, one reference fewer, and the space with its last user. */
  ghost predicate Gone(s: Sys, n: Sys, p: int)
    requires p in s.procs
  {
    var x := s.procs[p].space;
    && n.procs == s.procs - {p}
    && (forall y :: Users(n, y) == if y == x then Users(s, x) - {p} else Users(s, y))
    && (forall y :: Get(n.table, y) == if y == x && Get(s.table, x) > 0 then Get(s.table, x) - 1 else Get(s.table, y))
    && n.alive == if Users(s, x) == {p} then s.alive - {x} else s.alive
  }

  lemma LastUser(s: Sys, p: int)
    requires Inv(s) && p in s.procs
    ensures Destroys(s.table, s.procs[p]) <==> Users(s, s.procs[p].space) == {p}
  {
    var x := s.procs[p].space;
    assert p in Users(s, x);
    if Get(s.table, x) > 0 {
      OnlyMember(Users(s, x), p);
    }
  }

  lemma ReapTableCounts(t: seq<Slot>, q: Proc)
    requires TableOk(t) && q.space != 0 && (q.thread ==> Get(t, q.space) > 0)
    ensures var u, x := ReapTable(t, q), q.space;
            && TableOk(u) && |u| == |t|
            && forall y :: Get(u, y) == if y == x && Get(t, x) > 0 then Get(t, x) - 1 else Get(t, y)
  {
    if Get(t, q.space) > 0 {
      DecCounts(t, q.space);
    }
  }

  lemma UsersLess(s: Sys, n: Sys, p: int)
    requires p in s.procs && n.procs == s.procs - {p}
    ensures forall y :: Users(n, y) == if y == s.procs[p].space then Users(s, y) - {p} else Users(s, y)
  {
    forall y ensures Users(n, y) == if y == s.procs[p].space then Users(s, y) - {p} else Users(s, y) {
    }
  }

  lemma ReapIsGone(s: Sys, p: int)
    requires Inv(s) && Enabled(s, Reap(p))
    ensures Gone(s, Next(s, Reap(p)), p) && TableOk(Next(s, Reap(p)).table) && |Next(s, Reap(p)).table| == |s.table|
  {
    LastUser(s, p);
    ReapTableCounts(s.table, s.procs[p]);
    UsersLess(s, Next(s, Reap(p)), p);
  }

  lemma GoneHoused(s: Sys, n: Sys, p: int)
    requires Inv(s) && p in s.procs && Gone(s, n, p)
    ensures Housed(n) && Inhabited(n)
  {
    var x := s.procs[p].space;
    forall q | q in n.procs ensures n.procs[q].space in n.alive {
      assert q in Users(s, n.procs[q].space);
    }
    forall y | y in n.alive ensures Users(n, y) != {} {
      if y == x {
        assert p in Users(s, x);
        assert Users(s, x) == Users(n, x) + {p};
      }
    }
  }

  lemma GoneCounted(s: Sys, n: Sys, p: int)
    requires Inv(s) && p in s.procs && Gone(s, n, p)
    ensures Counted(n)
  {
    var x := s.procs[p].space;
    assert p in Users(s, x);
    OnlyMember(Users(s, x), p);
  }

  lemma GoneLone(s: Sys, n: Sys, p: int)
    requires Inv(s) && p in s.procs && Gone(s, n, p)
    ensures Lone(n)
  {
    var x := s.procs[p].space;
    assert p in Users(s, x);
    OnlyMember(Users(s, x), p);
    forall q | q in n.procs && Get(n.table, n.procs[q].space) == 0
      ensures !n.procs[q].thread && Users(n, n.procs[q].space) == {q}
    {
      assert q in s.procs && q != p && q in Users(s, n.procs[q].space);
    }
  }

  lemma ReapKeeps(s: Sys, p: int)
    requires Inv(s) && Enabled(s, Reap(p))
    ensures Inv(Next(s, Reap(p)))
    ensures Destroys(s.table, s.procs[p]) <==> Users(s, s.procs[p].space) == {p}
  {
    var n := Next(s, Reap(p));
    LastUser(s, p);
    ReapIsGone(s, p);
    GoneHoused(s, n, p);
    GoneCounted(s, n, p);
    GoneLone(s, n, p);
  }

  lemma OnlyMember(u: set<int>, p: int)
    requires p in u
    ensures |u| == 1 <==> u == {p}
    ensures |u - {p}| == |u| - 1
  {
    if |u| == 1 {
      assert |u - {p}| == 0;
    }
  }

  lemma StepKeeps(s: Sys, a: Step)
    requires Inv(s) && Enabled(s, a) && Roomy(s, a)
    ensures Inv(Next(s, a))
  {
    match a
    case Fork(p, c, x) => ForkKeeps(s, p, c, x);
    case ForkFails(p, x) =>
    case Share(p, c) => ShareKeeps(s, p, c);
    case ShareFails(p) => ShareFailsKeeps(s, p);
    case Reap(p) => ReapKeeps(s, p);
  }

  lemma ShareFailsKeeps(s: Sys, p: int)
    requires Inv(s) && Enabled(s, ShareFails(p))
    ensures Inv(Next(s, ShareFails(p)))
  {
    UnsharedCounts(s.table, s.procs[p].space);
    var n := Next(s, ShareFails(p));
    forall y ensures Users(n, y) == Users(s, y) {
    }
  }

  // ---- When the table is full ----

  lemma FullTableForgets(t: seq<Slot>, x: int)
    requires TableOk(t) && Get(t, x) == 0 && !HasRoom(t)
    ensures Shared(t, x) == t
  {
  }

  /** Sharing keeps the books exactly when the table has an entry or a free slot for the space. */
  lemma ShareNeedsRoom(s: Sys, p: int, c: int)
    requires Inv(s) && Enabled(s, Share(p, c))
    ensures Inv(Next(s, Share(p, c))) <==> Roomy(s, Share(p, c))
  {
    if Roomy(s, Share(p, c)) {
      ShareKeeps(s, p, c);
    } else {
      FullTableForgets(s.table, s.procs[p].space);
      var n := Next(s, Share(p, c));
      assert n.procs[c].thread && Get(n.table, n.procs[c].space) == 0;
    }
  }

  /** Without room, reaping the thread destroys the space its parent still runs in. */
  lemma FullTableDestroysEarly(s: Sys, p: int, c: int)
    requires Inv(s) && Enabled(s, Share(p, c)) && !Roomy(s, Share(p, c))
    ensures var n := Next(Next(s, Share(p, c)), Reap(c));
            p in n.procs && n.procs[p].space !in n.alive
  {
    FullTableForgets(s.table, s.procs[p].space);
  }

  /** The space of process `p` among 64 pairs that share the spaces 1 to 64, and one more on its own. */
  function PairSpace(p: int): int {
    if p == 128 then 65 else p / 2 + 1
  }

  function Crowd(): Sys {
    Sys(seq(REFCOUNT_MAX, i => Slot(i + 1, 2)),
        map p | 0 <= p <= 128 :: Proc(PairSpace(p), p < 128 && p % 2 == 1),
        set p | 0 <= p <= 128 :: PairSpace(p))
  }

  lemma CrowdUsers(x: int)
    ensures Users(Crowd(), x) == if 1 <= x <= 64 then {2 * x - 2, 2 * x - 1} else if x == 65 then {128} else {}
  {
    var s := Crowd();
    forall p ensures p in Users(s, x) <==> if 1 <= x <= 64 then p == 2 * x - 2 || p == 2 * x - 1 else x == 65 && p == 128 {
    }
  }

  lemma CrowdCounts(x: int)
    ensures Get(Crowd().table, x) == if 1 <= x <= 64 then 2 else 0
  {
    var t := Crowd().table;
    var i := Find(t, x, 0);
    if 1 <= x <= 64 {
      assert t[x - 1].space == x;
    }
  }

  lemma CrowdCounted(s: Sys)
    requires s == Crowd()
    ensures Counted(s) && TableOk(s.table) && |s.table| == REFCOUNT_MAX
  {
    forall x ensures Get(s.table, x) > 0 ==> Get(s.table, x) == |Users(s, x)| {
      CrowdUsers(x);
      CrowdCounts(x);
    }
  }

  lemma CrowdHoused(s: Sys)
    requires s == Crowd()
    ensures Housed(s) && Inhabited(s)
  {
    forall x | x in s.alive ensures x != 0 && Users(s, x) != {} {
      var p :| 0 <= p <= 128 && x == PairSpace(p);
      assert p in Users(s, x);
    }
  }

  lemma CrowdLone(s: Sys)
    requires s == Crowd()
    ensures Lone(s)
  {
    forall p | p in s.procs && Get(s.table, s.procs[p].space) == 0
      ensures !s.procs[p].thread && Users(s, s.procs[p].space) == {p}
    {
      CrowdCounts(s.procs[p].space);
      CrowdUsers(65);
    }
  }

  lemma CrowdInv()
    ensures Inv(Crowd())
  {
    var s := Crowd();
    CrowdCounted(s);
    CrowdHoused(s);
    CrowdLone(s);
  }

  /** A 65th space to be shared finds no slot, and is destroyed under process 128 when its thread 129 is reaped. */
  lemma SixtyFifthSpace()
    ensures var s := Crowd();
            && Inv(s) && Enabled(s, Share(128, 129)) && !Roomy(s, Share(128, 129))
            && var n := Next(Next(s, Share(128, 129)), Reap(129));
               128 in n.procs && n.procs[128].space !in n.alive
  {
    CrowdInv();
    CrowdCounts(65);
    FullTableDestroysEarly(Crowd(), 128, 129);
  }

  // ---- Runs ----

  ghost predicate Legal(s: Sys, run: seq<Step>)
    decreases |run|
  {
    run == [] || (Enabled(s, run[0]) && Roomy(s, run[0]) && Legal(Next(s, run[0]), run[1..]))
  }

  ghost function After(s: Sys, run: seq<Step>): Sys
    requires Legal(s, run)
    decreases |run|
  {
    if run == [] then s else After(Next(s, run[0]), run[1..])
  }

  ghost function One(b: bool): nat {
    if b then 1 else 0
  }

  /** How often the run creates space `x`. */
  ghost function Created(run: seq<Step>, x: int): nat {
    if run == [] then 0
    else One((run[0].Fork? || run[0].ForkFails?) && run[0].space == x) + Created(run[1..], x)
  }

  /** How often the run calls `vmm_as_destroy` on space `x`. */
  ghost function Destroyed(s: Sys, run: seq<Step>, x: int): nat
    requires Legal(s, run)
    decreases |run|
  {
    if run == [] then 0 else
    var a := run[0];
    var now := match a
      case ForkFails(_, y) => y == x
      case Reap(p) => s.procs[p].space == x && Destroys(s.table, s.procs[p])
      case _ => false;
    One(now) + Destroyed(Next(s, a), run[1..], x)
  }

  lemma AliveWhileUsed(s: Sys, x: int)
    requires Inv(s)
    ensures x in s.alive <==> Users(s, x) != {}
  {
    if x !in s.alive {
      assert forall p :: p in s.procs ==> s.procs[p].space != x;
    }
  }

  /**
   * Over any run of forks, shared clones (failed ones included) and reaps that finds room in the table, every
   * address space is destroyed once for each time it was created and not again, except while it has users.
   */
  lemma {:induction false} DestroyedOnce(s: Sys, run: seq<Step>, x: int)
    requires Inv(s) && Legal(s, run)
    ensures Inv(After(s, run))
    ensures Destroyed(s, run, x) + One(x in After(s, run).alive) == Created(run, x) + One(x in s.alive)
    ensures x in After(s, run).alive <==> Users(After(s, run), x) != {}
    decreases |run|
  {
    if run == [] {
      AliveWhileUsed(s, x);
    } else {
      StepKeeps(s, run[0]);
      DestroyedOnce(Next(s, run[0]), run[1..], x);
    }
  }
}
