/** Cluster chains: what a table of entries links together, and what each update does to it. */
module FatChains {
  import opened Seqs

  /** Cluster `cs[i]` links to `cs[i + 1]`, or ends the chain if it is the last. */
  ghost predicate Linked(t: seq<nat>, eoc: nat, cs: seq<nat>, i: nat)
    requires i < |cs|
  {
    && 2 <= cs[i] < |t|
    && (if i + 1 < |cs| then t[cs[i]] == cs[i + 1] else t[cs[i]] >= eoc)
  }

  /** `cs` is a chain of the table: valid clusters, no repetition, each linked to the next, the last marked. */
  ghost predicate Chain(t: seq<nat>, eoc: nat, cs: seq<nat>) {
    && cs != [] && Distinct(cs)
    && forall i {:trigger Linked(t, eoc, cs, i)} :: 0 <= i < |cs| ==> Linked(t, eoc, cs, i)
  }

  /** A set of files: each a chain, no cluster in two of them. */
  ghost predicate Files(t: seq<nat>, eoc: nat, fs: seq<seq<nat>>) {
    && (forall f :: 0 <= f < |fs| ==> Chain(t, eoc, fs[f]))
    && (forall f, g, c :: 0 <= f < g < |fs| && c in fs[f] ==> c !in fs[g])
  }

  lemma ChainFrame(t: seq<nat>, t': seq<nat>, eoc: nat, cs: seq<nat>)
    requires Chain(t, eoc, cs) && |t'| == |t| && forall c :: c in cs && c < |t| ==> t'[c] == t[c]
    ensures Chain(t', eoc, cs)
  {
    forall i | 0 <= i < |cs| ensures Linked(t', eoc, cs, i) {
      assert Linked(t, eoc, cs, i);
    }
  }

  /** A free cluster is in no chain. */
  lemma FreeIsOutside(t: seq<nat>, eoc: nat, cs: seq<nat>, c: nat)
    requires Chain(t, eoc, cs) && eoc > 0 && c < |t| && t[c] == 0
    ensures c !in cs
  {
    forall i | 0 <= i < |cs| ensures cs[i] != c {
      assert Linked(t, eoc, cs, i) && (i + 1 < |cs| ==> Linked(t, eoc, cs, i + 1));
    }
  }

  /** Marking a free cluster as an end and linking the old end to it makes the chain one longer. */
  lemma Append(t: seq<nat>, eoc: nat, mark: nat, cs: seq<nat>, c: nat)
    requires Chain(t, eoc, cs) && eoc > 0 && 2 <= c < |t| && t[c] == 0 && mark >= eoc
    ensures cs[|cs| - 1] < |t|
    ensures Chain(t[c := mark][cs[|cs| - 1] := c], eoc, cs + [c])
  {
    FreeIsOutside(t, eoc, cs, c);
    var last := cs[|cs| - 1];
    assert Linked(t, eoc, cs, |cs| - 1);
    var t', ds := t[c := mark][last := c], cs + [c];
    forall i | 0 <= i < |ds| ensures Linked(t', eoc, ds, i) {
      if i < |cs| {
        assert Linked(t, eoc, cs, i);
      }
    }
  }

  lemma Single(t: seq<nat>, eoc: nat, mark: nat, c: nat)
    requires 2 <= c < |t| && mark >= eoc
    ensures Chain(t[c := mark], eoc, [c])
  {
    assert Linked(t[c := mark], eoc, [c], 0);
  }

  /** Ending a chain after its first `n` clusters. */
  lemma Cut(t: seq<nat>, eoc: nat, mark: nat, cs: seq<nat>, n: nat)
    requires Chain(t, eoc, cs) && 1 <= n <= |cs| && mark >= eoc
    ensures cs[n - 1] < |t| && Chain(t[cs[n - 1] := mark], eoc, cs[..n])
    ensures n < |cs| ==> Chain(t[cs[n - 1] := mark], eoc, cs[n..])
  {
    assert Linked(t, eoc, cs, n - 1);
    var t' := t[cs[n - 1] := mark];
    forall i | 0 <= i < n ensures Linked(t', eoc, cs[..n], i) {
      assert Linked(t, eoc, cs, i);
    }
    forall i | 0 <= i < |cs| - n ensures Linked(t', eoc, cs[n..], i) {
      assert Linked(t, eoc, cs, n + i);
    }
  }

  /** The table with the clusters of `cs` free. */
  ghost function Cleared(t: seq<nat>, cs: seq<nat>): (r: seq<nat>)
    ensures |r| == |t|
  {
    seq(|t|, c requires 0 <= c < |t| => if c in cs then 0 else t[c])
  }

  lemma ClearNext(t: seq<nat>, cs: seq<nat>, i: nat)
    requires i < |cs| && cs[i] < |t|
    ensures Cleared(t, cs[..i])[cs[i] := 0] == Cleared(t, cs[..i + 1])
  {
    assert cs[..i + 1] == cs[..i] + [cs[i]];
  }

  // ---- Free clusters ----

  ghost function Vacant(t: seq<nat>): set<int> {
    set c | 2 <= c < |t| && t[c] == 0
  }

  lemma TakeVacant(t: seq<nat>, c: nat, v: nat)
    requires c in Vacant(t) && v != 0
    ensures Vacant(t[c := v]) == Vacant(t) - {c} && |Vacant(t[c := v])| == |Vacant(t)| - 1
  {
    assert Vacant(t[c := v]) == Vacant(t) - {c};
  }

  lemma RelinkVacant(t: seq<nat>, c: nat, v: nat)
    requires c < |t| && t[c] != 0 && v != 0
    ensures Vacant(t[c := v]) == Vacant(t)
  {
  }

  // ---- All files at once ----

  /** One file's chain is replaced by another; whatever clusters it gained were free. */
  lemma ReplaceFile(t: seq<nat>, t': seq<nat>, eoc: nat, fs: seq<seq<nat>>, f: nat, cs: seq<nat>)
    requires Files(t, eoc, fs) && f < |fs| && Chain(t', eoc, cs) && |t'| == |t| && eoc > 0
    requires forall c :: c in cs ==> c in fs[f] || (c < |t| && t[c] == 0)
    requires forall c :: 0 <= c < |t| && c !in fs[f] && t[c] != 0 ==> t'[c] == t[c]
    ensures Files(t', eoc, fs[f := cs])
  {
    forall g | 0 <= g < |fs| && g != f ensures Chain(t', eoc, fs[g]) && forall c :: c in fs[g] ==> c !in cs {
      Untouched(t, t', eoc, fs, f, g);
      forall c | c in fs[g] ensures c !in cs {
        if c < |t| && t[c] == 0 {
          FreeIsOutside(t, eoc, fs[g], c);
        }
      }
    }
  }

  lemma Untouched(t: seq<nat>, t': seq<nat>, eoc: nat, fs: seq<seq<nat>>, f: nat, g: nat)
    requires Files(t, eoc, fs) && f < |fs| && g < |fs| && f != g && |t'| == |t| && eoc > 0
    requires forall c :: 0 <= c < |t| && c !in fs[f] && t[c] != 0 ==> t'[c] == t[c]
    ensures Chain(t', eoc, fs[g]) && forall c :: c in fs[g] ==> c !in fs[f]
  {
    assert forall c :: c in fs[g] ==> c !in fs[f];
    forall c | c in fs[g] && c < |t| ensures t'[c] == t[c] {
      if t[c] == 0 {
        FreeIsOutside(t, eoc, fs[g], c);
      }
    }
    ChainFrame(t, t', eoc, fs[g]);
  }

  /** One file's chain is given back. */
  lemma DropFile(t: seq<nat>, eoc: nat, fs: seq<seq<nat>>, f: nat)
    requires Files(t, eoc, fs) && f < |fs| && eoc > 0
    ensures Files(Cleared(t, fs[f]), eoc, fs[..f] + fs[f + 1..])
  {
    var t', gs := Cleared(t, fs[f]), fs[..f] + fs[f + 1..];
    forall g | 0 <= g < |gs| ensures Chain(t', eoc, gs[g]) {
      Untouched(t, t', eoc, fs, f, if g < f then g else g + 1);
    }
  }

  /** A new one-cluster file. */
  lemma AddFile(t: seq<nat>, eoc: nat, mark: nat, fs: seq<seq<nat>>, c: nat)
    requires Files(t, eoc, fs) && 2 <= c < |t| && t[c] == 0 && mark >= eoc > 0
    ensures Files(t[c := mark], eoc, fs + [[c]])
  {
    var t', gs := t[c := mark], fs + [[c]];
    forall g | 0 <= g < |fs| ensures Chain(t', eoc, gs[g]) && c !in gs[g] {
      FreeIsOutside(t, eoc, fs[g], c);
      ChainFrame(t, t', eoc, fs[g]);
    }
    Single(t, eoc, mark, c);
  }

  /** Clusters that were free have become a chain: a new file. */
  lemma AddGrown(t: seq<nat>, t': seq<nat>, eoc: nat, fs: seq<seq<nat>>, ds: seq<nat>)
    requires Files(t, eoc, fs) && Chain(t', eoc, ds) && |t'| == |t| && eoc > 0
    requires forall c :: c in ds ==> c < |t| && t[c] == 0
    requires forall c :: 0 <= c < |t| && c !in ds ==> t'[c] == t[c]
    ensures Files(t', eoc, fs + [ds])
  {
    var gs := fs + [ds];
    forall g | 0 <= g < |fs| ensures Chain(t', eoc, gs[g]) && forall c :: c in gs[g] ==> c !in ds {
      forall c | c in fs[g] ensures c !in ds {
        if c in ds {
          FreeIsOutside(t, eoc, fs[g], c);
        }
      }
      ChainFrame(t, t', eoc, fs[g]);
    }
  }
}
