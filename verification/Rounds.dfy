/** One CPU seen through its timer ticks while nobody blocks, wakes or moves: who waits, who runs, for how long. */
module Rounds {

  const SLICE := 2

  datatype Round = Round(active: set<int>, expired: set<int>, current: int, slice: nat)

  ghost predicate Sane(v: Round) {
    v.active !! v.expired && v.current !in v.active && v.current !in v.expired
  }

  ghost function Everyone(v: Round): set<int> {
    v.active + v.expired + {v.current}
  }

  /** The slice is used up: the process joins the expired ones, and one of the active ones is chosen, any of them. */
  ghost predicate Expiry(v: Round, w: Round) {
    var back := v.expired + {v.current};
    && w.slice == SLICE
    && if v.active != {} then
         w.current in v.active && w.active == v.active - {w.current} && w.expired == back
       else
         w.current in back && w.active == back - {w.current} && w.expired == {}
  }

  ghost predicate Tick(v: Round, w: Round) {
    if v.slice > 0 then w == v.(slice := v.slice - 1) else Expiry(v, w)
  }

  ghost predicate Trace(t: seq<Round>) {
    forall i :: 0 < i < |t| ==> Tick(t[i - 1], t[i])
  }

  lemma TickKeeps(v: Round, w: Round)
    requires Sane(v) && Tick(v, w)
    ensures Sane(w) && Everyone(w) == Everyone(v) && (v.slice <= SLICE ==> w.slice <= SLICE)
  {
  }

  /** How many slices may still expire before `p` is chosen. */
  ghost function Expiries(v: Round, p: int): nat {
    if p in v.active then |v.active| else |v.active| + |Everyone(v)|
  }

  lemma Smaller(a: set<int>, x: int)
    requires x in a
    ensures |a - {x}| == |a| - 1
  {
  }

  lemma Within(a: set<int>, b: set<int>)
    requires a <= b
    ensures |a| <= |b|
  {
    assert b == a + (b - a);
  }

  lemma SameRound(v: Round, w: Round, p: int)
    requires v.active != {} && Expiry(v, w) && w.current != p
    ensures |w.active| == |v.active| - 1 && (p in w.active <==> p in v.active)
  {
    Smaller(v.active, w.current);
  }

  lemma NextRound(v: Round, w: Round, p: int)
    requires v.active == {} && Expiry(v, w) && w.current != p && p in Everyone(v)
    ensures p in w.active && |w.active| == |Everyone(v)| - 1
  {
    var back := v.expired + {v.current};
    assert Everyone(v) == back;
    Smaller(back, w.current);
  }

  /** Every expiry brings every process nearer to its turn. */
  lemma Nearer(v: Round, w: Round, p: int)
    requires p in Everyone(v) && Everyone(w) == Everyone(v) && Expiry(v, w) && w.current != p
    ensures Expiries(w, p) < Expiries(v, p)
  {
    if v.active != {} {
      SameRound(v, w, p);
    } else {
      NextRound(v, w, p);
    }
  }

  /** Nobody waits for more than two rounds. */
  lemma TwoRounds(v: Round, p: int)
    requires Sane(v) && p in Everyone(v)
    ensures 1 <= Expiries(v, p) <= 2 * |Everyone(v)|
  {
    Within(v.active, Everyone(v));
    Within({p}, Everyone(v));
    if p in v.active {
      Within({p}, v.active);
    }
  }

  /** Number of expiries among the first `i` ticks. */
  ghost function Count(t: seq<Round>, i: int): nat
    requires 0 <= i <= |t|
  {
    if i == 0 then 0 else Count(t, i - 1) + if t[i - 1].slice == 0 then 1 else 0
  }

  lemma {:induction false} CountTail(t: seq<Round>, i: int)
    requires 0 < i <= |t|
    ensures Count(t, i) == Count(t[1..], i - 1) + if t[0].slice == 0 then 1 else 0
  {
    if i > 1 {
      CountTail(t, i - 1);
    } else {
      assert Count(t, 0) == 0 && Count(t[1..], 0) == 0;
    }
  }

  /** `p` is chosen by tick `i`. */
  ghost predicate Chosen(t: seq<Round>, p: int, i: int) {
    0 < i < |t| && t[i - 1].slice == 0 && t[i].current == p
  }

  lemma {:induction false} Turn(t: seq<Round>, p: int) returns (i: int)
    requires |t| > 0 && Trace(t) && Sane(t[0]) && p in Everyone(t[0])
    requires t[0].slice <= SLICE && |t| > 3 * Expiries(t[0], p) - 2 + t[0].slice
    ensures Chosen(t, p, i) && i <= 3 * Expiries(t[0], p) - 2 + t[0].slice && Count(t, i) <= Expiries(t[0], p)
    decreases |t|
  {
    var v := t[0];
    TwoRounds(v, p);
    assert Tick(t[0], t[1]);
    TickKeeps(v, t[1]);
    if v.slice == 0 && t[1].current == p {
      CountTail(t, 1);
      return 1;
    }
    if v.slice == 0 {
      Nearer(v, t[1], p);
    }
    assert Trace(t[1..]) by {
      forall k | 0 < k < |t[1..]| ensures Tick(t[1..][k - 1], t[1..][k]) {
        assert Tick(t[k + 1 - 1], t[k + 1]);
      }
    }
    var j := Turn(t[1..], p);
    i := j + 1;
    CountTail(t, i);
  }

  /**
   * With N processes on the CPU, each of them is chosen again within 2N expired slices, which is at most 6N
   * timer ticks, whoever is chosen in between.
   */
  lemma EveryoneRuns(t: seq<Round>, p: int)
    requires |t| > 0 && Trace(t) && Sane(t[0]) && p in Everyone(t[0]) && t[0].slice <= SLICE
    requires |t| > 6 * |Everyone(t[0])|
    ensures exists i :: Chosen(t, p, i) && i <= 6 * |Everyone(t[0])| && Count(t, i) <= 2 * |Everyone(t[0])|
  {
    TwoRounds(t[0], p);
    var i := Turn(t, p);
  }
}
