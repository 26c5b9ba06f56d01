/** Directories of src/kernel/ext2.c: finding, adding, removing and renaming entries. */
module Ext2Dir {
  import opened Seqs
  import opened Words
  import opened Ext2Records

  // ---- Lists of entries, and the table of names they stand for ----

  /** The first entry of that name decides. */
  function Lookup(es: seq<Entry>, name: seq<byte>): Option<word> {
    if es == [] then None
    else if es[0].name == name then Some(es[0].ino)
    else Lookup(es[1..], name)
  }

  function Table(es: seq<Entry>): map<seq<byte>, word> {
    if es == [] then map[] else Table(es[1..])[es[0].name := es[0].ino]
  }

  lemma LookupIsTable(es: seq<Entry>, name: seq<byte>)
    ensures Lookup(es, name) == if name in Table(es) then Some(Table(es)[name]) else None
  {
  }

  /** No name twice. */
  predicate Unique(es: seq<Entry>) {
    es == [] || (es[0].name !in Table(es[1..]) && Unique(es[1..]))
  }

  function Insert(es: seq<Entry>, k: nat, e: Entry): seq<Entry>
    requires k <= |es|
  {
    es[..k] + [e] + es[k..]
  }

  lemma InsertTail(es: seq<Entry>, k: nat, e: Entry)
    requires 0 < k <= |es|
    ensures Insert(es, k, e)[0] == es[0] && Insert(es, k, e)[1..] == Insert(es[1..], k - 1, e)
  {
  }

  lemma WithoutTail(es: seq<Entry>, k: nat)
    requires 0 < k < |es|
    ensures Without(es, k)[0] == es[0] && Without(es, k)[1..] == Without(es[1..], k - 1)
  {
  }

  lemma {:induction false} InsertNames(es: seq<Entry>, k: nat, e: Entry, n: seq<byte>)
    requires k <= |es|
    ensures n in Table(Insert(es, k, e)) <==> n == e.name || n in Table(es)
  {
    if k == 0 {
      assert Insert(es, k, e)[1..] == es;
    } else {
      InsertTail(es, k, e);
      InsertNames(es[1..], k - 1, e, n);
    }
  }

  /** A new name is put into the table, wherever its entry lands. */
  lemma {:induction false} InsertTable(es: seq<Entry>, k: nat, e: Entry)
    requires k <= |es| && e.name !in Table(es)
    ensures Table(Insert(es, k, e)) == Table(es)[e.name := e.ino]
  {
    if k == 0 {
      assert Insert(es, k, e)[1..] == es;
    } else {
      InsertTail(es, k, e);
      InsertTable(es[1..], k - 1, e);
    }
  }

  /** Names stay unique exactly when the name added is a new one. */
  lemma {:induction false} InsertUnique(es: seq<Entry>, k: nat, e: Entry)
    requires k <= |es|
    ensures Unique(Insert(es, k, e)) <==> Unique(es) && e.name !in Table(es)
  {
    if k == 0 {
      assert Insert(es, k, e)[1..] == es;
    } else {
      InsertTail(es, k, e);
      InsertUnique(es[1..], k - 1, e);
      InsertNames(es[1..], k - 1, e, es[0].name);
    }
  }

  lemma {:induction false} NameInTable(es: seq<Entry>, k: nat)
    requires k < |es|
    ensures es[k].name in Table(es)
  {
    if k > 0 {
      NameInTable(es[1..], k - 1);
    }
  }

  /** With unique names, taking an entry away takes its name out of the table and no other. */
  lemma {:induction false} WithoutTable(es: seq<Entry>, k: nat)
    requires k < |es| && Unique(es)
    ensures Table(Without(es, k)) == Table(es) - {es[k].name} && Unique(Without(es, k))
  {
    if k == 0 {
      assert Without(es, k) == es[1..];
    } else {
      WithoutTail(es, k);
      WithoutTable(es[1..], k - 1);
      NameInTable(es[1..], k - 1);
    }
  }

  // ---- A directory is a list of blocks ----

  /** Everything the blocks hold. */
  function All(bs: seq<seq<byte>>): seq<Entry> {
    if bs == [] then [] else Entries(bs[0], 0) + All(bs[1..])
  }

  /** What a lookup gets to see: it gives up at the first bad record. */
  function Seen(bs: seq<seq<byte>>): seq<Entry> {
    if bs == [] then [] else Entries(bs[0], 0) + if Tiled(bs[0], 0) then Seen(bs[1..]) else []
  }

  predicate AllTiled(bs: seq<seq<byte>>) {
    bs == [] || (Tiled(bs[0], 0) && AllTiled(bs[1..]))
  }

  lemma {:induction false} SeesAll(bs: seq<seq<byte>>)
    requires AllTiled(bs)
    ensures Seen(bs) == All(bs)
  {
    if bs != [] {
      SeesAll(bs[1..]);
    }
  }

  lemma {:induction false} AllSplits(bs: seq<seq<byte>>, i: nat)
    requires i < |bs|
    ensures All(bs) == All(bs[..i]) + (Entries(bs[i], 0) + All(bs[i + 1..]))
  {
    if i == 0 {
      assert All(bs[..0]) + All(bs) == All(bs);
    } else {
      AllSplits(bs[1..], i - 1);
      assert bs[1..][..i - 1] == bs[..i][1..] && bs[1..][i..] == bs[i + 1..];
      Assoc(Entries(bs[0], 0), All(bs[..i][1..]), Entries(bs[i], 0) + All(bs[i + 1..]));
    }
  }

  lemma {:induction false} TiledUpdate(bs: seq<seq<byte>>, i: nat, c: seq<byte>)
    requires i < |bs| && Tiled(c, 0) == Tiled(bs[i], 0)
    ensures AllTiled(bs[i := c]) == AllTiled(bs)
  {
    if i == 0 {
      assert bs[i := c][1..] == bs[1..];
    } else {
      TiledUpdate(bs[1..], i - 1, c);
      assert bs[i := c][1..] == bs[1..][i - 1 := c];
    }
  }

  lemma {:induction false} AllAppend(bs: seq<seq<byte>>, c: seq<byte>)
    ensures All(bs + [c]) == All(bs) + Entries(c, 0)
    ensures AllTiled(bs + [c]) == (AllTiled(bs) && Tiled(c, 0))
  {
    if bs == [] {
      assert bs + [c] == [c] && [c][1..] == [];
      assert Entries(c, 0) + [] == Entries(c, 0) == [] + Entries(c, 0);
    } else {
      AllAppend(bs[1..], c);
      assert (bs + [c])[1..] == bs[1..] + [c];
      Assoc(Entries(bs[0], 0), All(bs[1..]), Entries(c, 0));
    }
  }

  lemma EditAll(bs: seq<seq<byte>>, i: nat, c: seq<byte>)
    requires i < |bs|
    ensures All(bs[i := c]) == All(bs[..i]) + (Entries(c, 0) + All(bs[i + 1..]))
  {
    AllSplits(bs[i := c], i);
    assert bs[i := c][..i] == bs[..i] && bs[i := c][i + 1..] == bs[i + 1..];
  }

  /** An entry more in a part of a list is an entry more in the list. */
  lemma Inserted(p: seq<Entry>, a: seq<Entry>, b: seq<Entry>, s: seq<Entry>, k: nat, e: Entry)
    requires k <= |a| && b == Insert(a, k, e)
    ensures p + (b + s) == Insert(p + (a + s), |p| + k, e)
  {
    var x := p + (a + s);
    assert x[..|p| + k] == p + a[..k];
    assert x[|p| + k..] == a[k..] + s;
  }

  lemma Deleted(p: seq<Entry>, a: seq<Entry>, b: seq<Entry>, s: seq<Entry>, k: nat)
    requires k < |a| && b == Without(a, k)
    ensures p + (b + s) == Without(p + (a + s), |p| + k) && (p + (a + s))[|p| + k] == a[k]
  {
    var x := p + (a + s);
    assert x[..|p| + k] == p + a[..k];
    assert x[|p| + k + 1..] == a[k + 1..] + s;
  }

  lemma InsertedAt(a: seq<Entry>, b: seq<Entry>, q: seq<Entry>, m: seq<Entry>, e: Entry, r: seq<Entry>)
    requires a == q + (m + r) && b == q + (m + [e] + r)
    ensures |q| + |m| <= |a| && b == Insert(a, |q| + |m|, e)
  {
    assert a[..|q| + |m|] == q + m && a[|q| + |m|..] == r;
  }

  lemma DeletedAt(a: seq<Entry>, b: seq<Entry>, q: seq<Entry>, m: seq<Entry>, e: Entry, r: seq<Entry>)
    requires a == q + (m + [e] + r) && b == q + (m + r)
    ensures |q| + |m| < |a| && a[|q| + |m|] == e && b == Without(a, |q| + |m|)
  {
    assert a[..|q| + |m|] == q + m && a[|q| + |m| + 1..] == r;
  }

  lemma FrontDeleted(e: Entry, r: seq<Entry>)
    ensures [] + ([] + [e] + r) == [e] + r && [] + ([] + r) == r
  {
  }

  lemma {:induction false} LookupConcat(a: seq<Entry>, b: seq<Entry>, name: seq<byte>)
    ensures Lookup(a + b, name) == if Lookup(a, name).Some? then Lookup(a, name) else Lookup(b, name)
  {
    if a == [] {
      assert a + b == b;
    } else {
      LookupConcat(a[1..], b, name);
      assert (a + b)[1..] == a[1..] + b;
    }
  }

  // ---- Walking one block ----

  predicate Match(b: seq<byte>, off: nat, name: seq<byte>)
    requires Good(b, off)
  {
    Ino(b, off) != 0 && NameLen(b, off) == |name| && Name(b, off) == name
  }

  lemma MatchOwn(b: seq<byte>, off: nat, name: seq<byte>)
    requires Good(b, off)
    ensures Lookup(Own(b, off), name) == if Match(b, off, name) then Some(Ino(b, off)) else None
  {
  }

  /** Some record from `off` on holds `name`. */
  predicate Holds(b: seq<byte>, off: nat, name: seq<byte>)
    decreases |b| - off
  {
    Good(b, off) && (Match(b, off, name) || Holds(b, Next(b, off), name))
  }

  /** The block after `name` has been looked for from `off` on and struck out. */
  function ErasedFrom(b: seq<byte>, off: nat, prev: nat, name: seq<byte>): (c: seq<byte>)
    requires Before(b, prev, off) && |b| < 0x1_0000
    ensures |c| == |b|
    decreases |b| - off
  {
    if !Good(b, off) then b
    else if Match(b, off, name) then Struck(b, off, prev)
    else ErasedFrom(b, Next(b, off), off, name)
  }

  /** The first record that holds `name`, and the record before it. */
  method Scan(b: seq<byte>, name: seq<byte>) returns (hit: bool, off: nat, prev: nat)
    ensures off <= |b| && Reaches(b, 0, off) && Lookup(UpTo(b, 0, off), name) == None
    ensures hit == Holds(b, 0, name) && Before(b, prev, off)
    ensures |b| < 0x1_0000 ==> ErasedFrom(b, 0, 0, name) == ErasedFrom(b, off, prev, name)
    ensures hit ==> Good(b, off) && Match(b, off, name)
    ensures hit && off > 0 ==> Reaches(b, 0, prev) && Good(b, prev) && Next(b, prev) == off
    ensures !hit ==> Lookup(Entries(b, 0), name) == None && (off == |b| <==> Tiled(b, 0))
  {
    hit, off, prev := false, 0, 0;
    while off < |b|
      invariant off <= |b| && Reaches(b, 0, off) && Lookup(UpTo(b, 0, off), name) == None
      invariant off > 0 ==> Reaches(b, 0, prev) && Good(b, prev) && Next(b, prev) == off
      invariant Holds(b, 0, name) == Holds(b, off, name)
      invariant |b| < 0x1_0000 ==> ErasedFrom(b, 0, 0, name) == ErasedFrom(b, off, prev, name)
      decreases |b| - off
    {
      if !Good(b, off) {
        break;
      }
      if Match(b, off, name) {
        hit := true;
        return;
      }
      MatchOwn(b, off, name);
      ReachesNext(b, 0, off);
      LookupConcat(UpTo(b, 0, off), Own(b, off), name);
      prev := off;
      off := Next(b, off);
    }
    WalkSplits(b, 0, off);
    assert Entries(b, off) == [];
    assert UpTo(b, 0, off) + [] == UpTo(b, 0, off);
  }

  /** The first record a new one of `needed` bytes fits into. */
  method FindSpace(b: seq<byte>, needed: nat) returns (hit: bool, off: nat)
    ensures hit == Roomy(b, 0, needed)
    ensures hit ==> Reaches(b, 0, off) && Good(b, off) && Takes(b, off, needed)
  {
    off := 0;
    while off < |b|
      invariant off <= |b| && Reaches(b, 0, off) && Roomy(b, 0, needed) == Roomy(b, off, needed)
      decreases |b| - off
    {
      if !Good(b, off) {
        break;
      }
      if Takes(b, off, needed) {
        return true, off;
      }
      ReachesNext(b, 0, off);
      off := Next(b, off);
    }
    return false, off;
  }

  /** The block with a new entry in it. */
  method Place(b: seq<byte>, off: nat, name: seq<byte>, ino: word, kind: byte)
      returns (c: seq<byte>, ghost q: seq<Entry>, ghost m: seq<Entry>, ghost r: seq<Entry>)
    requires Reaches(b, 0, off) && Good(b, off) && Takes(b, off, Needed(name)) && ino != 0
    ensures |c| == |b| && Tiled(c, 0) == Tiled(b, 0)
    ensures Entries(b, 0) == q + (m + r) && Entries(c, 0) == q + (m + [Entry(Stored(name), ino, kind)] + r)
  {
    q, r := UpTo(b, 0, off), Entries(b, Next(b, off));
    if Reusable(b, off, Needed(name)) {
      m := [];
      c := ReuseRecord(b, off, name, ino, kind);
      assert [] + [Entry(Stored(name), ino, kind)] == [Entry(Stored(name), ino, kind)];
    } else {
      m := Own(b, off);
      c := SplitRecord(b, off, name, ino, kind);
    }
  }

  lemma MatchUsed(b: seq<byte>, off: nat, name: seq<byte>)
    requires Good(b, off) && Match(b, off, name)
    ensures Used(b, off) == Needed(name)
  {
  }

  lemma NameFits(b: seq<byte>, c: seq<byte>, off: nat, prev: nat, name: seq<byte>)
    requires Freed(b, c, off, prev) && Reaches(b, 0, prev) && Match(b, off, name)
    ensures Roomy(c, 0, Needed(name))
  {
    MatchUsed(b, off, name);
    FreedTakes(b, c, off, prev);
  }

  lemma NoMoreFits(b: seq<byte>, c: seq<byte>, off: nat, prev: nat, name: seq<byte>, n: nat)
    requires Freed(b, c, off, prev) && Reaches(b, 0, prev) && Match(b, off, name) && !Roomy(b, 0, n)
    ensures !Roomy(c, 0, Needed(name) + 2 * n)
  {
    MatchUsed(b, off, name);
    FreedTakesNoMore(b, c, off, prev, n);
  }

  /** The block without the entry at `off`. */
  method Erase(b: seq<byte>, off: nat, prev: nat, name: seq<byte>)
      returns (c: seq<byte>, ghost q: seq<Entry>, ghost m: seq<Entry>, ghost r: seq<Entry>)
    requires Reaches(b, 0, off) && Good(b, off) && Match(b, off, name) && |b| < 0x1_0000
    requires off > 0 ==> Reaches(b, 0, prev) && Good(b, prev) && Next(b, prev) == off
    ensures |c| == |b| && Tiled(c, 0) == Tiled(b, 0)
    ensures Entries(b, 0) == q + (m + [Entry(name, Ino(b, off), b[off + 7])] + r) && Entries(c, 0) == q + (m + r)
    ensures c == Struck(b, off, prev) && Roomy(c, 0, Needed(name))
  {
    ghost var e := Entry(name, Ino(b, off), b[off + 7]);
    r := Entries(b, Next(b, off));
    if off == 0 {
      q, m := [], [];
      c := ClearRecord(b);
      NameFits(b, c, 0, 0, name);
      FrontDeleted(e, r);
    } else {
      q, m := UpTo(b, 0, prev), Own(b, prev);
      c := MergeRecord(b, prev, off);
      NameFits(b, c, off, prev, name);
    }
  }

  lemma GrownBlock(bs: seq<seq<byte>>, i: nat, c: seq<byte>, k: nat, e: Entry) returns (j: nat)
    requires i < |bs| && k <= |Entries(bs[i], 0)| && Entries(c, 0) == Insert(Entries(bs[i], 0), k, e)
    ensures j <= |All(bs)| && All(bs[i := c]) == Insert(All(bs), j, e)
  {
    var p, s := All(bs[..i]), All(bs[i + 1..]);
    AllSplits(bs, i);
    EditAll(bs, i, c);
    Inserted(p, Entries(bs[i], 0), Entries(c, 0), s, k, e);
    j := |p| + k;
  }

  lemma ShrunkBlock(bs: seq<seq<byte>>, i: nat, c: seq<byte>, k: nat) returns (j: nat)
    requires i < |bs| && k < |Entries(bs[i], 0)| && Entries(c, 0) == Without(Entries(bs[i], 0), k)
    ensures j < |All(bs)| && All(bs)[j] == Entries(bs[i], 0)[k] && All(bs[i := c]) == Without(All(bs), j)
  {
    var p, s := All(bs[..i]), All(bs[i + 1..]);
    AllSplits(bs, i);
    EditAll(bs, i, c);
    Deleted(p, Entries(bs[i], 0), Entries(c, 0), s, k);
    j := |p| + k;
  }

  // ---- Erasing a name ----

  predicate Small(bs: seq<seq<byte>>) {
    forall i :: 0 <= i < |bs| ==> |bs[i]| < 0x1_0000
  }

  /** The blocks after the first entry of that name has been struck out. */
  function Erased(bs: seq<seq<byte>>, name: seq<byte>): (r: seq<seq<byte>>)
    requires Small(bs)
    ensures Small(r)
  {
    if bs == [] then []
    else if Holds(bs[0], 0, name) then [ErasedFrom(bs[0], 0, 0, name)] + bs[1..]
    else [bs[0]] + Erased(bs[1..], name)
  }

  /** Some block has a place for a record of `needed` bytes. */
  ghost predicate HasRoom(bs: seq<seq<byte>>, needed: nat) {
    exists i :: 0 <= i < |bs| && Roomy(bs[i], 0, needed)
  }

  lemma HasRoomFor(bs: seq<seq<byte>>, n: nat, m: nat)
    requires HasRoom(bs, n) && m <= n
    ensures HasRoom(bs, m)
  {
    var i :| 0 <= i < |bs| && Roomy(bs[i], 0, n);
    RoomyLess(bs[i], 0, n, m);
  }

  lemma RoomInBlock(bs: seq<seq<byte>>, i: nat, c: seq<byte>, needed: nat)
    requires i < |bs| && Roomy(c, 0, needed)
    ensures HasRoom(bs[i := c], needed)
  {
    assert Roomy(bs[i := c][i], 0, needed);
  }

  lemma TakeNext(bs: seq<seq<byte>>, i: nat, rest: seq<seq<byte>>)
    requires i < |bs|
    ensures bs[..i] + ([bs[i]] + rest) == bs[..i + 1] + rest
  {
  }

  lemma ErasedSkips(bs: seq<seq<byte>>, i: nat, name: seq<byte>)
    requires Small(bs) && i < |bs| && !Holds(bs[i], 0, name)
    requires Erased(bs, name) == bs[..i] + Erased(bs[i..], name)
    ensures Erased(bs, name) == bs[..i + 1] + Erased(bs[i + 1..], name)
  {
    var rest := bs[i..];
    assert rest[0] == bs[i] && rest[1..] == bs[i + 1..];
    assert Erased(rest, name) == [bs[i]] + Erased(bs[i + 1..], name);
    TakeNext(bs, i, Erased(bs[i + 1..], name));
  }

  lemma ErasedHits(bs: seq<seq<byte>>, i: nat, name: seq<byte>, c: seq<byte>)
    requires Small(bs) && i < |bs| && Holds(bs[i], 0, name) && c == ErasedFrom(bs[i], 0, 0, name)
    requires Erased(bs, name) == bs[..i] + Erased(bs[i..], name)
    ensures Erased(bs, name) == bs[i := c]
  {
    assert bs[i..][0] == bs[i] && bs[i..][1..] == bs[i + 1..];
    assert bs[i := c] == bs[..i] + ([c] + bs[i + 1..]);
  }

  const DOT: seq<byte> := [46]
  const KIND_DIR: byte := 2

  lemma TwoEntries(b: seq<byte>, b1: seq<byte>, c: seq<byte>, size: nat, ino: word, parent: word)
    requires 1024 <= size < 0x1_0000 && size % 4 == 0 && ino != 0 && parent != 0
    requires |b| == size && Written(b, 0, 12, DOT, ino, KIND_DIR) && Agree(b, b1, 0, 16) && Agree(b1, c, 0, 12)
    requires Written(c, 12, size, DOT + DOT, parent, KIND_DIR) && |c| == size
    ensures Tiled(c, 0)
    ensures Entries(c, 0) == [Entry(DOT, ino, KIND_DIR), Entry(DOT + DOT, parent, KIND_DIR)]
  {
    WrittenReads(b, 0, 12, DOT, ino, KIND_DIR);
    AgreeInside(b, b1, 0, 16, 0, 12);
    AgreeThrough(b, b1, c, 0, 12);
    SameOwn(b, c, 0);
    WrittenReads(c, 12, size, DOT + DOT, parent, KIND_DIR);
    assert !Good(c, size) && Tiled(c, size) && Entries(c, size) == [];
    assert Entries(c, 12) == Own(c, 12) + [];
  }

  lemma PairTable(x: Entry, y: Entry)
    requires x.name != y.name
    ensures Table([x, y]) == map[x.name := x.ino, y.name := y.ino] && Unique([x, y])
  {
    assert [x, y][1..] == [y] && [y][1..] == [];
    assert Table([y]) == map[y.name := y.ino];
  }

  datatype Outcome = Done | Missing | Exists | NoSpace | IsDirectory

  class Directory {
    const bs: nat
    var blocks: seq<seq<byte>>

    predicate Shape()
      reads this
    {
      (bs == 1024 || bs == 2048 || bs == 4096) && forall i :: 0 <= i < |blocks| ==> |blocks[i]| == bs
    }

    ghost predicate Valid()
      reads this
    {
      Shape() && AllTiled(blocks) && Unique(All(blocks))
    }

    /** A new directory holds itself and its parent. */
    constructor (size: nat, ino: word, parent: word)
      requires (size == 1024 || size == 2048 || size == 4096) && ino != 0 && parent != 0
      ensures bs == size && Valid() && Names() == map[DOT := ino, DOT + DOT := parent]
    {
      var b := Store(seq(size, _ => 0 as byte), 4, Le16(12));
      b := FillRecord(b, 0, 12, DOT, ino, KIND_DIR);
      var b1 := Store(b, 16, Le16(size - 12));
      var c := FillRecord(b1, 12, size, DOT + DOT, parent, KIND_DIR);
      TwoEntries(b, b1, c, size, ino, parent);
      bs, blocks := size, [c];
      assert [c][1..] == [];
      assert All([c]) == Entries(c, 0) + [];
      PairTable(Entry(DOT, ino, KIND_DIR), Entry(DOT + DOT, parent, KIND_DIR));
    }

    ghost function Names(): map<seq<byte>, word>
      reads this
    {
      Table(All(blocks))
    }

    method Find(name: seq<byte>) returns (r: Option<word>)
      requires Shape()
      ensures r == Lookup(Seen(blocks), name) && (r.Some? ==> r.value != 0)
    {
      var i := 0;
      while i < |blocks|
        invariant i <= |blocks| && Lookup(Seen(blocks), name) == Lookup(Seen(blocks[i..]), name)
      {
        var b := blocks[i];
        assert blocks[i..][1..] == blocks[i + 1..];
        var hit, off, _ := Scan(b, name);
        ghost var rest := if Tiled(b, 0) then Seen(blocks[i + 1..]) else [];
        LookupConcat(Entries(b, 0), rest, name);
        if hit {
          WalkSplits(b, 0, off);
          LookupConcat(UpTo(b, 0, off), Entries(b, off), name);
          LookupConcat(Own(b, off), Entries(b, Next(b, off)), name);
          MatchOwn(b, off, name);
          return Some(Ino(b, off));
        }
        if off < bs {
          return None;
        }
        i := i + 1;
      }
      r := None;
    }

    method PutInBlock(i: nat, off: nat, name: seq<byte>, ino: word, kind: byte, ghost es: seq<Entry>)
        returns (ghost k: nat)
      requires Shape() && i < |blocks| && ino != 0 && es == All(blocks)
      requires Reaches(blocks[i], 0, off) && Good(blocks[i], off) && Takes(blocks[i], off, Needed(name))
      modifies this
      ensures Shape() && AllTiled(blocks) == old(AllTiled(blocks))
      ensures k <= |es| && All(blocks) == Insert(es, k, Entry(Stored(name), ino, kind))
    {
      var c, q, m, r := Place(blocks[i], off, name, ino, kind);
      TiledUpdate(blocks, i, c);
      InsertedAt(Entries(blocks[i], 0), Entries(c, 0), q, m, Entry(Stored(name), ino, kind), r);
      k := GrownBlock(blocks, i, c, |q| + |m|, Entry(Stored(name), ino, kind));
      blocks := blocks[i := c];
    }

    /** `room`: a new block can be had for the directory. */
    method Add(name: seq<byte>, ino: word, kind: byte, room: bool) returns (ok: bool, ghost k: nat)
      requires Shape() && 8 + |name| <= bs && ino != 0
      modifies this
      ensures ok <==> room || old(HasRoom(blocks, Needed(name)))
      ensures Shape() && AllTiled(blocks) == old(AllTiled(blocks))
      ensures !ok ==> blocks == old(blocks)
      ensures ok ==> k <= |old(All(blocks))|
                     && All(blocks) == Insert(old(All(blocks)), k, Entry(Stored(name), ino, kind))
    {
      var i := 0;
      while i < |blocks|
        invariant i <= |blocks| && blocks == old(blocks)
        invariant forall j :: 0 <= j < i ==> !Roomy(blocks[j], 0, Needed(name))
      {
        var hit, off := FindSpace(blocks[i], Needed(name));
        if hit {
          k := PutInBlock(i, off, name, ino, kind, All(blocks));
          return true, k;
        }
        i := i + 1;
      }
      k := |All(blocks)|;
      if !room {
        return false, k;
      }
      var c := FreshBlock(bs, name, ino, kind);
      AllAppend(blocks, c);
      assert Insert(All(blocks), k, Entry(Stored(name), ino, kind)) == All(blocks) + Entries(c, 0);
      blocks := blocks + [c];
      ok := true;
    }

    method EraseFromBlock(i: nat, off: nat, prev: nat, name: seq<byte>, ghost es: seq<Entry>)
        returns (c: seq<byte>, ghost k: nat)
      requires Shape() && i < |blocks| && es == All(blocks)
      requires Reaches(blocks[i], 0, off) && Good(blocks[i], off) && Match(blocks[i], off, name)
      requires off > 0 ==> Reaches(blocks[i], 0, prev) && Good(blocks[i], prev) && Next(blocks[i], prev) == off
      requires |blocks[i]| < 0x1_0000
      modifies this
      ensures Shape() && AllTiled(blocks) == old(AllTiled(blocks))
      ensures k < |es| && es[k].name == name && es[k].ino == old(Ino(blocks[i], off)) && All(blocks) == Without(es, k)
      ensures c == old(Struck(blocks[i], off, prev)) && blocks == old(blocks)[i := c] && Roomy(c, 0, Needed(name))
    {
      ghost var q, m, r;
      c, q, m, r := Erase(blocks[i], off, prev, name);
      TiledUpdate(blocks, i, c);
      DeletedAt(Entries(blocks[i], 0), Entries(c, 0), q, m, Entry(name, Ino(blocks[i], off), blocks[i][off + 7]), r);
      k := ShrunkBlock(blocks, i, c, |q| + |m|);
      blocks := blocks[i := c];
    }

    lemma HitIsFirst(b: seq<byte>, off: nat, name: seq<byte>, rest: seq<Entry>)
      requires Reaches(b, 0, off) && Lookup(UpTo(b, 0, off), name) == None && Good(b, off) && Match(b, off, name)
      ensures Lookup(Entries(b, 0) + rest, name) == Some(Ino(b, off))
    {
      LookupConcat(Entries(b, 0), rest, name);
      WalkSplits(b, 0, off);
      LookupConcat(UpTo(b, 0, off), Entries(b, off), name);
      LookupConcat(Own(b, off), Entries(b, Next(b, off)), name);
      MatchOwn(b, off, name);
    }

    /** A damaged block does not stop a removal, as it does a lookup: the walk goes on with the next one. */
    method Remove(name: seq<byte>) returns (r: Option<word>, ghost k: nat)
      requires Shape()
      modifies this
      ensures r == Lookup(old(All(blocks)), name)
      ensures Shape() && AllTiled(blocks) == old(AllTiled(blocks))
      ensures blocks == old(Erased(blocks, name)) && (r.None? ==> blocks == old(blocks))
      ensures r.Some? ==> HasRoom(blocks, Needed(name))
      ensures r.Some? ==> k < |old(All(blocks))| && old(All(blocks))[k].name == name
                          && old(All(blocks))[k].ino == r.value && All(blocks) == Without(old(All(blocks)), k)
    {
      var i := 0;
      while i < |blocks|
        invariant i <= |blocks| && blocks == old(blocks)
        invariant Lookup(All(blocks), name) == Lookup(All(blocks[i..]), name)
        invariant Erased(blocks, name) == blocks[..i] + Erased(blocks[i..], name)
      {
        assert blocks[i..][1..] == blocks[i + 1..];
        var hit, off, prev := Scan(blocks[i], name);
        if hit {
          HitIsFirst(blocks[i], off, name, All(blocks[i + 1..]));
          r := Some(Ino(blocks[i], off));
          var c;
          c, k := EraseFromBlock(i, off, prev, name, All(blocks));
          ErasedHits(old(blocks), i, name, c);
          RoomInBlock(old(blocks), i, c, Needed(name));
          return;
        }
        LookupConcat(Entries(blocks[i], 0), All(blocks[i + 1..]), name);
        ErasedSkips(blocks, i, name);
        i := i + 1;
      }
      r, k := None, 0;
    }

    /** A lookup in a sound directory reads the table of names. */
    method Resolve(name: seq<byte>) returns (r: Option<word>)
      requires Valid()
      ensures r == if name in Names() then Some(Names()[name]) else None
      ensures r.Some? ==> r.value != 0
    {
      SeesAll(blocks);
      LookupIsTable(All(blocks), name);
      r := Find(name);
    }

    /** Removing a name takes it out of the table and leaves every other as it was. */
    method Unlink(name: seq<byte>) returns (r: Option<word>)
      requires Valid()
      modifies this
      ensures Valid() && Names() == old(Names()) - {name}
      ensures blocks == old(Erased(blocks, name)) && (r.Some? ==> HasRoom(blocks, Needed(name)))
      ensures r == if name in old(Names()) then Some(old(Names())[name]) else None
    {
      ghost var es := All(blocks);
      LookupIsTable(es, name);
      ghost var k;
      r, k := Remove(name);
      if r.Some? {
        WithoutTable(es, k);
      }
    }

    /**
     * `ext2_unlink_impl`, where `dirs` are the inodes of directories. The entry is gone before the test for a
     * directory is made, so a call that fails leaves the names alone exactly if the name is not a directory's.
     */
    method UnlinkFile(name: seq<byte>, dirs: set<word>) returns (r: Outcome)
      requires Valid()
      modifies this
      ensures Valid() && Names() == old(Names()) - {name}
      ensures r == if name !in old(Names()) then Missing else if old(Names())[name] in dirs then IsDirectory else Done
      ensures (r != Done ==> Names() == old(Names())) <==> !(name in old(Names()) && old(Names())[name] in dirs)
    {
      var ino := Unlink(name);
      if ino.None? {
        return Missing;
      }
      r := if ino.value in dirs then IsDirectory else Done;
    }

    /** What adding does to the table of names. */
    method Attach(name: seq<byte>, ino: word, kind: byte, room: bool) returns (ok: bool)
      requires Valid() && 8 + |name| <= bs && ino != 0
      modifies this
      ensures ok <==> room || old(HasRoom(blocks, Needed(name)))
      ensures !ok ==> blocks == old(blocks)
      ensures ok ==> (Valid() <==> Stored(name) !in old(Names()))
      ensures ok ==> (name in Names() <==> name in old(Names()) || |name| < 256)
      ensures ok && Valid() ==> Names() == old(Names())[Stored(name) := ino]
      ensures ok ==> Entry(Stored(name), ino, kind) in All(blocks)
    {
      ghost var es := All(blocks);
      ghost var e := Entry(Stored(name), ino, kind);
      ghost var k;
      ok, k := Add(name, ino, kind, room);
      if ok {
        InsertNames(es, k, e, name);
        assert Insert(es, k, e)[k] == e;
        InsertUnique(es, k, e);
        if e.name !in Table(es) {
          InsertTable(es, k, e);
        }
      }
    }

    /**
     * A new name is put into the table, once. It can be looked up again exactly when it is short enough for
     * the length field.
     */
    method Link(name: seq<byte>, ino: word, kind: byte, room: bool) returns (r: Outcome)
      requires Valid() && 8 + |name| <= bs && ino != 0
      modifies this
      ensures r == Exists <==> name in old(Names())
      ensures r == Done || r == Exists || r == NoSpace
      ensures r != Done ==> blocks == old(blocks)
      ensures room ==> r != NoSpace
      ensures r == Done ==> (name in Names() <==> |name| < 256)
      ensures r == Done ==> (Valid() <==> Stored(name) !in old(Names()))
      ensures r == Done && |name| < 256 ==> Names() == old(Names())[name := ino]
      ensures r == Done ==> Entry(Stored(name), ino, kind) in All(blocks)
    {
      var found := Resolve(name);
      if found.Some? {
        return Exists;
      }
      var ok := Attach(name, ino, kind, room);
      r := if ok then Done else NoSpace;
    }

    /** The entry `to` already is another name of the same file. */
    ghost predicate Twin(from: seq<byte>, to: seq<byte>)
      reads this
    {
      from != to && from in Names() && to in Names() && Names()[to] == Names()[from]
    }

    /** The blocks after `to` has been taken away from another file than `src`. */
    ghost function Cleared(to: seq<byte>, src: word): (r: seq<seq<byte>>)
      requires Shape()
      reads this
      ensures Small(r)
    {
      if to in Names() && Names()[to] != src then Erased(blocks, to) else blocks
    }

    /** `to` is put in the place of whatever it named. */
    method Discard(to: seq<byte>, src: word) returns (ghost gone: set<seq<byte>>)
      requires Valid()
      modifies this
      ensures gone == if to in old(Names()) && old(Names())[to] != src then {to} else {}
      ensures Valid() && Names() == old(Names()) - gone && blocks == old(Cleared(to, src))
    {
      gone := {};
      var dst := Resolve(to);
      if dst.Some? && dst.value != src {
        gone := {to};
        var _ := Unlink(to);
      }
    }

    /**
     * A rename moves the name, unless both names already stand for the same file: then the directory ends up
     * with the new name twice. The file loses its name exactly if no block has space for the new entry once
     * the old ones are gone, and none can be added; a name that needs no more space than the old one is safe.
     */
    method Rename(from: seq<byte>, to: seq<byte>, kind: byte, room: bool) returns (r: Outcome)
      requires Valid() && |to| < 256
      modifies this
      ensures (r == Done || r == Missing || r == NoSpace) && (r == Missing <==> from !in old(Names()))
      ensures r == Missing ==> blocks == old(blocks)
      ensures r == NoSpace <==> from in old(Names()) && !room
                                && !HasRoom(old(Erased(Cleared(to, Names()[from]), from)), Needed(to))
      ensures Needed(to) <= Needed(from) ==> r != NoSpace
      ensures r == Done ==> (Valid() <==> !old(Twin(from, to)))
      ensures r == Done && !old(Twin(from, to)) ==> Names() == (old(Names()) - {from})[to := old(Names())[from]]
      ensures r == NoSpace ==> Valid() && from !in Names()
      ensures r == NoSpace && !old(Twin(from, to)) ==> Names() == old(Names()) - {from, to}
      ensures r == Done ==> Entry(to, old(Names())[from], kind) in All(blocks)
    {
      var src := Resolve(from);
      if src.None? {
        return Missing;
      }
      ghost var t := Names();
      ghost var gone := Discard(to, src.value);
      assert from in Names() && Names()[from] == t[from];
      var _ := Unlink(from);
      assert Names() == t - gone - {from};
      if Needed(to) <= Needed(from) {
        HasRoomFor(blocks, Needed(from), Needed(to));
      }
      var ok := Attach(to, src.value, kind, room);
      Moved(t, from, to, gone);
      r := if ok then Done else NoSpace;
    }

    /** A rename into another directory: the name leaves this one, whether or not the other has space for it. */
    method Move(dst: Directory, from: seq<byte>, to: seq<byte>, kind: byte, room: bool) returns (r: Outcome)
      requires dst != this && Valid() && dst.Valid() && |to| < 256
      modifies this, dst
      ensures (r == Done || r == Missing || r == NoSpace) && (r == Missing <==> from !in old(Names()))
      ensures r == Missing ==> blocks == old(blocks) && dst.blocks == old(dst.blocks)
      ensures r == NoSpace <==> from in old(Names()) && !room
                                && !HasRoom(old(dst.Cleared(to, Names()[from])), Needed(to))
      ensures Valid() && Names() == old(Names()) - {from}
      ensures r == Done ==> (dst.Valid() <==> !(to in old(dst.Names()) && old(dst.Names())[to] == old(Names())[from]))
      ensures r == Done && dst.Valid() ==> dst.Names() == old(dst.Names())[to := old(Names())[from]]
      ensures r == NoSpace ==> dst.Valid() && dst.blocks == old(dst.Cleared(to, Names()[from]))
      ensures r == Done ==> Entry(to, old(Names())[from], kind) in All(dst.blocks)
    {
      var src := Resolve(from);
      if src.None? {
        return Missing;
      }
      ghost var t := dst.Names();
      ghost var gone := dst.Discard(to, src.value);
      var _ := Unlink(from);
      var ok := dst.Attach(to, src.value, kind, room);
      Overwritten(t, to, gone, src.value);
      r := if ok then Done else NoSpace;
    }
  }

  lemma Moved(t: map<seq<byte>, word>, from: seq<byte>, to: seq<byte>, gone: set<seq<byte>>)
    requires from in t && gone == if to in t && t[to] != t[from] then {to} else {}
    ensures to in t - gone - {from} <==> to != from && to in t && t[to] == t[from]
    ensures to !in t - gone - {from} ==> t - gone - {from} == t - {from, to}
    ensures (t - {from, to})[to := t[from]] == (t - {from})[to := t[from]]
  {
  }

  lemma Overwritten(t: map<seq<byte>, word>, to: seq<byte>, gone: set<seq<byte>>, ino: word)
    requires gone == {} || gone == {to}
    ensures (t - gone)[to := ino] == t[to := ino]
  {
  }

  // ---- Renames that go wrong ----

  /** Any two names of one file: the one renamed to the other leaves the directory with that name twice. */
  method TwinRename(a: seq<byte>, b: seq<byte>) returns (d: Directory)
    requires |a| < 256 && |b| < 256 && a != b && a != DOT && b != DOT && a != DOT + DOT && b != DOT + DOT
    ensures fresh(d) && !d.Valid()
  {
    d := new Directory(1024, 2, 2);
    var r := d.Link(a, 5, 1, true);
    r := d.Link(b, 5, 1, true);
    assert d.Twin(a, b);
    r := d.Rename(a, b, 1, true);
  }

  /** A directory below another one: unlinking it fails, and its name is gone. */
  method UnlinkedDirectory(name: seq<byte>, ino: word) returns (d: Directory, r: Outcome)
    requires |name| < 256 && name != DOT && name != DOT + DOT && ino != 0
    ensures fresh(d) && r == IsDirectory && d.Valid() && name !in d.Names()
  {
    d := new Directory(1024, 2, 2);
    var _ := d.Link(name, ino, KIND_DIR, true);
    r := d.UnlinkFile(name, {2, ino});
  }

  // ---- Blocks that are full to the last byte ----

  /** Where entry `k` starts if every record is just long enough for its name. */
  function Off(es: seq<Entry>, k: nat): nat
    requires k <= |es|
  {
    if k == 0 then 0 else Off(es, k - 1) + Needed(es[k - 1].name)
  }

  lemma {:induction false} OffGrows(es: seq<Entry>, i: nat, j: nat)
    requires i <= j <= |es|
    ensures Off(es, i) <= Off(es, j)
    decreases j - i
  {
    if i < j {
      OffGrows(es, i, j - 1);
    }
  }

  /** Entries that fill a block of `size` bytes. */
  ghost predicate Fills(es: seq<Entry>, size: nat) {
    && Off(es, |es|) == size < 0x1_0000 && Unique(es)
    && forall k :: 0 <= k < |es| ==> es[k].ino != 0 && |es[k].name| < 256
  }

  ghost predicate RecordAt(b: seq<byte>, es: seq<Entry>, k: nat)
    requires k < |es|
  {
    Written(b, Off(es, k), Off(es, k + 1), es[k].name, es[k].ino, es[k].kind)
  }

  lemma WrittenKept(b: seq<byte>, c: seq<byte>, off: nat, r: nat, name: seq<byte>, ino: word, kind: byte)
    requires Written(b, off, r, name, ino, kind) && Agree(b, c, off, r)
    ensures Written(c, off, r, name, ino, kind)
  {
    HasKept(b, c, off, r, off, Le32(ino));
    HasKept(b, c, off, r, off + 4, Le16(r - off));
    HasKept(b, c, off, r, off + 6, [(|name| % 256) as byte, kind]);
    HasKept(b, c, off, r, off + 8, name);
  }

  lemma RecordKept(b: seq<byte>, c: seq<byte>, es: seq<Entry>, k: nat, hi: nat)
    requires k < |es| && RecordAt(b, es, k) && Off(es, k + 1) <= hi && Agree(b, c, 0, hi)
    ensures RecordAt(c, es, k)
  {
    AgreeInside(b, c, 0, hi, Off(es, k), Off(es, k + 1));
    WrittenKept(b, c, Off(es, k), Off(es, k + 1), es[k].name, es[k].ino, es[k].kind);
  }

  ghost predicate AllRecords(b: seq<byte>, es: seq<Entry>, n: nat)
    requires n <= |es|
  {
    n == 0 || (RecordAt(b, es, n - 1) && AllRecords(b, es, n - 1))
  }

  lemma {:induction false} RecordOf(b: seq<byte>, es: seq<Entry>, n: nat, k: nat)
    requires k < n <= |es| && AllRecords(b, es, n)
    ensures RecordAt(b, es, k)
  {
    if k < n - 1 {
      RecordOf(b, es, n - 1, k);
    }
  }

  lemma {:induction false} RecordsKept(b: seq<byte>, c: seq<byte>, es: seq<Entry>, n: nat, hi: nat)
    requires n <= |es| && AllRecords(b, es, n) && Off(es, n) <= hi && Agree(b, c, 0, hi)
    ensures AllRecords(c, es, n)
  {
    if n > 0 {
      RecordKept(b, c, es, n - 1, hi);
      RecordsKept(b, c, es, n - 1, hi);
    }
  }

  method WriteRecord(b: seq<byte>, off: nat, e: Entry) returns (c: seq<byte>)
    requires off + Needed(e.name) <= |b| < 0x1_0000
    ensures Written(c, off, off + Needed(e.name), e.name, e.ino, e.kind) && Agree(b, c, 0, off)
  {
    var b1 := Store(b, off + 4, Le16(Needed(e.name)));
    c := FillRecord(b1, off, off + Needed(e.name), e.name, e.ino, e.kind);
    AgreeInside(b, b1, 0, off + 4, 0, off);
    AgreeThrough(b, b1, c, 0, off);
  }

  method WriteFull(es: seq<Entry>, size: nat) returns (b: seq<byte>)
    requires Fills(es, size)
    ensures |b| == size && AllRecords(b, es, |es|)
  {
    b := seq(size, _ => 0 as byte);
    var i := 0;
    while i < |es|
      invariant i <= |es| && |b| == size && AllRecords(b, es, i)
    {
      OffGrows(es, i + 1, |es|);
      var c := WriteRecord(b, Off(es, i), es[i]);
      RecordsKept(b, c, es, i, Off(es, i));
      b, i := c, i + 1;
    }
  }

  lemma RecordReads(b: seq<byte>, es: seq<Entry>, k: nat)
    requires k < |es| && RecordAt(b, es, k) && es[k].ino != 0 && |es[k].name| < 256
    ensures var off := Off(es, k);
            Good(b, off) && Next(b, off) == Off(es, k + 1) && Own(b, off) == [es[k]] && !Takes(b, off, 1)
  {
    WrittenReads(b, Off(es, k), Off(es, k + 1), es[k].name, es[k].ino, es[k].kind);
    assert Own(b, Off(es, k))[0].name == es[k].name;
  }

  lemma FullStep(b: seq<byte>, off: nat, e: Entry, rest: seq<Entry>)
    requires Good(b, off) && Own(b, off) == [e] && !Takes(b, off, 1)
    requires Tiled(b, Next(b, off)) && Entries(b, Next(b, off)) == rest && !Roomy(b, Next(b, off), 1)
    ensures Tiled(b, off) && Entries(b, off) == [e] + rest && !Roomy(b, off, 1)
  {
  }

  /** The records tile the block, hold the entries, and leave no byte over. */
  lemma {:induction false} FullTiles(b: seq<byte>, es: seq<Entry>, k: nat)
    requires Fills(es, |b|) && k <= |es| && AllRecords(b, es, |es|)
    ensures Tiled(b, Off(es, k)) && Entries(b, Off(es, k)) == es[k..] && !Roomy(b, Off(es, k), 1)
    decreases |es| - k
  {
    if k < |es| {
      RecordOf(b, es, |es|, k);
      RecordReads(b, es, k);
      FullTiles(b, es, k + 1);
      FullStep(b, Off(es, k), es[k], es[k + 1..]);
      assert es[k..] == [es[k]] + es[k + 1..];
    }
  }

  lemma OneBlock(b: seq<byte>)
    ensures All([b]) == Entries(b, 0) && AllTiled([b]) == Tiled(b, 0)
  {
    assert [b][1..] == [];
    assert All([b]) == Entries(b, 0) + [];
  }

  /** A directory of one block that is full to the last byte. */
  method FullDirectory(es: seq<Entry>) returns (d: Directory, b: seq<byte>)
    requires Fills(es, 1024)
    ensures fresh(d) && d.Valid() && d.blocks == [b] && |b| == 1024 && d.Names() == Table(es)
    ensures Entries(b, 0) == es && !Roomy(b, 0, 1)
  {
    d := new Directory(1024, 2, 2);
    b := WriteFull(es, 1024);
    FullTiles(b, es, 0);
    assert es[0..] == es;
    OneBlock(b);
    d.blocks := [b];
  }

  method StrikeAt(b: seq<byte>, off: nat, prev: nat, name: seq<byte>, ghost n: nat) returns (c: seq<byte>)
    requires |b| < 0x1_0000 && Good(b, off) && Match(b, off, name) && !Roomy(b, 0, n)
    requires off > 0 ==> Reaches(b, 0, prev) && Good(b, prev) && Next(b, prev) == off
    ensures c == Struck(b, off, prev) && !Roomy(c, 0, Needed(name) + 2 * n)
  {
    if off == 0 {
      c := ClearRecord(b);
      NoMoreFits(b, c, 0, 0, name, n);
    } else {
      c := JoinRecords(b, prev, off);
      NoMoreFits(b, c, off, prev, name, n);
    }
  }

  lemma OneErased(b: seq<byte>, name: seq<byte>)
    requires |b| < 0x1_0000 && Holds(b, 0, name)
    ensures Erased([b], name) == [ErasedFrom(b, 0, 0, name)]
  {
    assert [b][1..] == [];
  }

  /** Striking a name out makes little more room than its record took, if there was less than `n` left anywhere. */
  method Strike(b: seq<byte>, name: seq<byte>, ghost n: nat) returns (c: seq<byte>)
    requires |b| < 0x1_0000 && Lookup(Entries(b, 0), name).Some? && !Roomy(b, 0, n)
    ensures Erased([b], name) == [c] && !Roomy(c, 0, Needed(name) + 2 * n)
  {
    var hit, off, prev := Scan(b, name);
    c := StrikeAt(b, off, prev, name, n);
    OneErased(b, name);
  }

  /** Without space for `to` once `from` has been struck out of the only block. */
  method StruckNoRoom(b: seq<byte>, from: seq<byte>, to: seq<byte>) returns (c: seq<byte>)
    requires |b| < 0x1_0000 && Lookup(Entries(b, 0), from).Some? && !Roomy(b, 0, 1)
    ensures Erased([b], from) == [c] && (Needed(to) > Needed(from) ==> !HasRoom(Erased([b], from), Needed(to)))
  {
    c := Strike(b, from, 1);
    Multiples(Needed(to), Needed(from));
    NoRoomAbove(c, Needed(from) + 2, Needed(to));
  }

  lemma Multiples(m: nat, n: nat)
    requires m % 4 == 0 && n % 4 == 0
    ensures m > n ==> m >= n + 2
  {
  }

  /**
   * In a full directory to which no block can be added, a rename to a new name loses the file exactly if the new
   * name needs more space than the old one.
   */
  method FullRename(es: seq<Entry>, from: seq<byte>, to: seq<byte>, kind: byte) returns (d: Directory, r: Outcome)
    requires Fills(es, 1024) && from in Table(es) && to !in Table(es) && |to| < 256
    ensures fresh(d) && d.Valid() && (r == NoSpace <==> Needed(to) > Needed(from))
    ensures d.Names() == if r == NoSpace then Table(es) - {from} else (Table(es) - {from})[to := Table(es)[from]]
  {
    var b;
    d, b := FullDirectory(es);
    LookupIsTable(es, from);
    var _ := StruckNoRoom(b, from, to);
    assert d.Cleared(to, d.Names()[from]) == [b];
    r := d.Rename(from, to, kind, false);
    NotThere(Table(es), from, to);
  }

  lemma NotThere(t: map<seq<byte>, word>, from: seq<byte>, to: seq<byte>)
    requires to !in t
    ensures t - {from, to} == t - {from}
  {
  }

  lemma NoRoomAbove(c: seq<byte>, n: nat, m: nat)
    requires !Roomy(c, 0, n)
    ensures m >= n ==> !HasRoom([c], m)
  {
    if m >= n && Roomy(c, 0, m) {
      RoomyLess(c, 0, m, n);
    }
  }

  // ---- A full directory ----

  /** `.`, `..` and ten files with names of 92 bytes: records of 12, 12 and ten times 100 bytes. */
  function Twelve(): (es: seq<Entry>)
    ensures |es| == 12
  {
    seq(12, k requires 0 <= k < 12 =>
                 if k == 0 then Entry(DOT, 2, KIND_DIR)
                 else if k == 1 then Entry(DOT + DOT, 2, KIND_DIR)
                 else Entry(LongName(k as byte), 11, 1))
  }

  function LongName(k: byte): (r: seq<byte>)
    ensures |r| == 92 && r[91] == k
  {
    seq(91, _ => 97 as byte) + [k]
  }

  lemma {:induction false} DistinctNames(es: seq<Entry>)
    requires forall i, j :: 0 <= i < j < |es| ==> es[i].name != es[j].name
    ensures Unique(es) && forall n :: n in Table(es) ==> exists k :: 0 <= k < |es| && es[k].name == n
  {
    if es != [] {
      var rest := es[1..];
      assert forall i :: 0 <= i < |rest| ==> rest[i] == es[i + 1];
      DistinctNames(rest);
    }
  }

  lemma {:induction false} TwelveOff(es: seq<Entry>, k: nat)
    requires |es| == 12 && |es[0].name| == 1 && |es[1].name| == 2 && forall i :: 2 <= i < 12 ==> |es[i].name| == 92
    requires 2 <= k <= 12
    ensures Off(es, k) == 24 + 100 * (k - 2)
    decreases k
  {
    if k == 2 {
      assert Off(es, 1) == 12;
    } else {
      TwelveOff(es, k - 1);
    }
  }

  lemma TwelveDiffer(es: seq<Entry>, i: nat, j: nat)
    requires es == Twelve() && i < j < 12
    ensures es[i].name != es[j].name
  {
    if i >= 2 {
      assert es[i].name[91] == i as byte && es[j].name[91] == j as byte;
    } else {
      assert |es[i].name| < |es[j].name|;
    }
  }

  lemma TwelveSizes(es: seq<Entry>)
    requires es == Twelve()
    ensures |es[0].name| == 1 && |es[1].name| == 2 && forall i :: 2 <= i < 12 ==> |es[i].name| == 92
    ensures forall i :: 0 <= i < 12 ==> es[i].ino != 0
  {
  }

  lemma TwelveFill(es: seq<Entry>, to: seq<byte>)
    requires es == Twelve() && |to| == 96
    ensures Fills(es, 1024) && es[2].name in Table(es) && |es[2].name| == 92 && to !in Table(es)
  {
    TwelveSizes(es);
    TwelveOff(es, 12);
    forall i, j | 0 <= i < j < 12 ensures es[i].name != es[j].name {
      TwelveDiffer(es, i, j);
    }
    DistinctNames(es);
    NameInTable(es, 2);
  }

  /** Its first file, renamed to a name of 96 bytes, is lost. */
  method CrowdedRename(to: seq<byte>) returns (d: Directory, r: Outcome)
    requires |to| == 96
    ensures fresh(d) && r == NoSpace && d.Valid() && LongName(2) !in d.Names()
  {
    var es := Twelve();
    TwelveFill(es, to);
    d, r := FullRename(es, es[2].name, to, 1);
  }
}
