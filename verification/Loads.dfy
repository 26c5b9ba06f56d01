/** The load counters of src/kernel/sched_pcpu.c against the number of processes that wait on each CPU. */
module Loads {
  import opened Lists

  function Raised(load: seq<nat>, c: nat): seq<nat>
    requires c < |load|
  {
    load[c := load[c] + 1]
  }

  /** A counter does not go below zero. */
  function Lowered(load: seq<nat>, c: nat): seq<nat>
    requires c < |load|
  {
    load[c := if load[c] > 0 then load[c] - 1 else 0]
  }

  /** The processes that wait on CPU `c`. */
  ghost function Pool(home: seq<int>, c: int): set<int> {
    set x | 0 <= x < |home| && home[x] / 64 == c
  }

  /** Every counter is the number of processes that wait. */
  ghost predicate Accurate(home: seq<int>, load: seq<nat>) {
    forall c :: 0 <= c < |load| ==> load[c] == |Pool(home, c)|
  }

  lemma Moves(home: seq<int>, x: int, k: int, c: int)
    requires 0 <= x < |home|
    ensures Pool(home[x := k], c) == Pool(home, c) - {x} + if k / 64 == c then {x} else {}
    ensures |Pool(home[x := k], c)|
            == |Pool(home, c)| - (if home[x] / 64 == c then 1 else 0) + if k / 64 == c then 1 else 0
  {
    var rest := Pool(home, c) - {x};
    assert Pool(home[x := k], c) == rest + if k / 64 == c then {x} else {};
    assert home[x] / 64 == c ==> Pool(home, c) == rest + {x};
    assert home[x] / 64 != c ==> Pool(home, c) == rest;
  }

  /** A process that becomes ready is counted. */
  lemma Joins(home: seq<int>, load: seq<nat>, x: int, k: int, c: nat)
    requires 0 <= x < |home| && home[x] == NULL && k / 64 == c < |load|
    ensures Accurate(home, load) <==> Accurate(home[x := k], Raised(load, c))
  {
    forall d | 0 <= d < |load|
      ensures load[d] == |Pool(home, d)| <==> Raised(load, c)[d] == |Pool(home[x := k], d)|
    {
      Moves(home, x, k, d);
    }
  }

  /** A process that is picked to run is no longer counted. */
  lemma Leaves(home: seq<int>, load: seq<nat>, x: int, c: nat)
    requires 0 <= x < |home| && c < |load| && (home[x] == NULL || home[x] / 64 == c)
    ensures Accurate(home, load) ==> Accurate(home[x := NULL], if home[x] == NULL then load else Lowered(load, c))
  {
    if Accurate(home, load) {
      var next := if home[x] == NULL then load else Lowered(load, c);
      forall d | 0 <= d < |load| ensures next[d] == |Pool(home[x := NULL], d)| {
        Moves(home, x, NULL, d);
        assert home[x] != NULL && d == c ==> x in Pool(home, c);
      }
    }
  }

  /**
   * A used-up slice: `p` joins the waiting ones and is not counted, `x` leaves them and is. The counters stay right
   * exactly if nobody was waiting.
   */
  lemma Expires(home: seq<int>, load: seq<nat>, p: int, k: int, x: int, c: nat)
    requires 0 <= p < |home| && home[p] == NULL && k / 64 == c < |load|
    requires 0 <= x < |home| && home[p := k][x] / 64 == c && Accurate(home, load)
    ensures Accurate(home[p := k][x := NULL], Lowered(load, c)) <==> Pool(home, c) == {}
  {
    var after := home[p := k][x := NULL];
    forall d | 0 <= d < |load| ensures |Pool(after, d)| == |Pool(home, d)| {
      Moves(home, p, k, d);
      Moves(home[p := k], x, NULL, d);
    }
    if Pool(home, c) == {} {
      assert load[c] == 0 && Lowered(load, c) == load;
    } else {
      assert Lowered(load, c)[c] != |Pool(after, c)|;
    }
  }

  /** A process that changes CPUs is counted where it goes and not where it came from. */
  lemma Migrates(home: seq<int>, load: seq<nat>, x: int, k: int, from: nat, to: nat)
    requires 0 <= x < |home| && home[x] / 64 == from < |load| && k / 64 == to < |load| && from != to
    ensures Accurate(home, load) ==> Accurate(home[x := k], Raised(Lowered(load, from), to))
  {
    if Accurate(home, load) {
      var next := Raised(Lowered(load, from), to);
      forall d | 0 <= d < |load| ensures next[d] == |Pool(home[x := k], d)| {
        Moves(home, x, k, d);
        assert d == from ==> x in Pool(home, from);
      }
    }
  }
}
