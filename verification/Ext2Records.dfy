/** One block of an ext2 directory: variable-length records that tile it, and the entries they hold. */
module Ext2Records {
  import opened Seqs
  import opened Words

  datatype Entry = Entry(name: seq<byte>, ino: word, kind: byte)

  // ---- Records as bytes ----

  function Ino(b: seq<byte>, off: nat): word
    requires off + 8 <= |b|
  {
    Word(b, off)
  }

  function RecLen(b: seq<byte>, off: nat): nat
    requires off + 8 <= |b|
  {
    Half(b, off + 4)
  }

  function NameLen(b: seq<byte>, off: nat): nat
    requires off + 8 <= |b|
  {
    b[off + 6] as int
  }

  /** The checks every walk makes before it trusts a record. */
  predicate Good(b: seq<byte>, off: nat) {
    && off + 8 <= |b|
    && RecLen(b, off) >= 8
    && RecLen(b, off) % 4 == 0
    && off + RecLen(b, off) <= |b|
    && NameLen(b, off) <= RecLen(b, off) - 8
  }

  function Next(b: seq<byte>, off: nat): (r: nat)
    requires Good(b, off)
    ensures off + 8 <= r <= |b|
  {
    off + RecLen(b, off)
  }

  function Name(b: seq<byte>, off: nat): seq<byte>
    requires Good(b, off)
  {
    b[off + 8..off + 8 + NameLen(b, off)]
  }

  /** The entry a record holds; a record with inode 0 holds none. */
  function Own(b: seq<byte>, off: nat): seq<Entry>
    requires Good(b, off)
  {
    if Ino(b, off) == 0 then [] else [Entry(Name(b, off), Ino(b, off), b[off + 7])]
  }

  function Round4(n: nat): (r: nat)
    ensures n <= r < n + 4 && r % 4 == 0
  {
    (n + 3) / 4 * 4
  }

  /** Bytes a record needs for the name it holds. */
  function Used(b: seq<byte>, off: nat): (r: nat)
    requires Good(b, off)
    ensures 8 + NameLen(b, off) <= r <= RecLen(b, off) && r % 4 == 0
  {
    Round4(8 + NameLen(b, off))
  }

  /** The bytes of the record that names a directory of inode 2 to itself. */
  lemma DotRecord(b: seq<byte>)
    requires b == [2, 0, 0, 0, 12, 0, 1, 2, 46, 0, 0, 0]
    ensures Good(b, 0) && Next(b, 0) == 12 && Own(b, 0) == [Entry([46], 2, 2)]
  {
    assert b[8..9] == [46];
  }

  // ---- The walk over a block ----

  /** What a walk from `off` meets before the end of the block or the first bad record. */
  function Entries(b: seq<byte>, off: nat): seq<Entry>
    decreases |b| - off
  {
    if Good(b, off) then Own(b, off) + Entries(b, Next(b, off)) else []
  }

  /** Records from `off` on reach exactly the end of the block. */
  predicate Tiled(b: seq<byte>, off: nat)
    decreases |b| - off
  {
    off == |b| || (Good(b, off) && Tiled(b, Next(b, off)))
  }

  /** The walk from `off` comes by `q`. */
  ghost predicate Reaches(b: seq<byte>, off: nat, q: nat)
    decreases |b| - off
  {
    off == q || (Good(b, off) && Next(b, off) <= q && Reaches(b, Next(b, off), q))
  }

  ghost function UpTo(b: seq<byte>, off: nat, q: nat): seq<Entry>
    requires Reaches(b, off, q)
    decreases |b| - off
  {
    if off == q then [] else Own(b, off) + UpTo(b, Next(b, off), q)
  }

  /** Some record takes a new one of `needed` bytes. */
  predicate Roomy(b: seq<byte>, off: nat, needed: nat)
    decreases |b| - off
  {
    Good(b, off) && (Takes(b, off, needed) || Roomy(b, Next(b, off), needed))
  }

  predicate Reusable(b: seq<byte>, off: nat, needed: nat)
    requires Good(b, off)
  {
    Ino(b, off) == 0 && RecLen(b, off) >= needed
  }

  predicate Takes(b: seq<byte>, off: nat, needed: nat)
    requires Good(b, off)
  {
    Reusable(b, off, needed) || RecLen(b, off) - Used(b, off) >= needed
  }

  lemma {:induction false} WalkSplits(b: seq<byte>, off: nat, q: nat)
    requires Reaches(b, off, q)
    ensures Entries(b, off) == UpTo(b, off, q) + Entries(b, q)
    ensures Tiled(b, off) == Tiled(b, q)
    decreases |b| - off
  {
    if off == q {
      assert UpTo(b, off, q) + Entries(b, q) == Entries(b, q);
    } else {
      WalkSplits(b, Next(b, off), q);
      Assoc(Own(b, off), UpTo(b, Next(b, off), q), Entries(b, q));
    }
  }

  lemma {:induction false} ReachesNext(b: seq<byte>, off: nat, q: nat)
    requires Reaches(b, off, q) && Good(b, q)
    ensures Reaches(b, off, Next(b, q))
    ensures UpTo(b, off, Next(b, q)) == UpTo(b, off, q) + Own(b, q)
    decreases |b| - off
  {
    if off == q {
      assert Reaches(b, Next(b, q), Next(b, q));
      assert UpTo(b, Next(b, q), Next(b, q)) == [];
      assert Own(b, q) + [] == Own(b, q) == [] + Own(b, q);
    } else {
      ReachesNext(b, Next(b, off), q);
      Assoc(Own(b, off), UpTo(b, Next(b, off), q), Own(b, q));
    }
  }

  // ---- Blocks that agree on some bytes ----

  ghost predicate Agree(b: seq<byte>, c: seq<byte>, lo: nat, hi: nat) {
    |b| == |c| && hi <= |b| && forall i :: lo <= i < hi ==> b[i] == c[i]
  }

  lemma SameRecord(b: seq<byte>, c: seq<byte>, off: nat)
    requires Agree(b, c, off, off + 8)
    ensures Ino(b, off) == Ino(c, off) && RecLen(b, off) == RecLen(c, off) && NameLen(b, off) == NameLen(c, off)
    ensures Good(b, off) == Good(c, off)
  {
  }

  lemma SameOwn(b: seq<byte>, c: seq<byte>, off: nat)
    requires Good(b, off) && Agree(b, c, off, Next(b, off))
    ensures Good(c, off) && Next(c, off) == Next(b, off) && Own(c, off) == Own(b, off)
  {
    SameRecord(b, c, off);
    assert Name(b, off) == Name(c, off);
  }

  lemma {:induction false} SamePrefix(b: seq<byte>, c: seq<byte>, off: nat, q: nat)
    requires Reaches(b, off, q) && Agree(b, c, off, q)
    ensures Reaches(c, off, q) && UpTo(c, off, q) == UpTo(b, off, q)
    decreases |b| - off
  {
    if off != q {
      SameOwn(b, c, off);
      SamePrefix(b, c, Next(b, off), q);
    }
  }

  lemma {:induction false} SameSuffix(b: seq<byte>, c: seq<byte>, off: nat)
    requires Agree(b, c, off, |b|)
    ensures Entries(c, off) == Entries(b, off) && Tiled(c, off) == Tiled(b, off)
    decreases |b| - off
  {
    if off + 8 <= |b| {
      SameRecord(b, c, off);
      if Good(b, off) {
        SameOwn(b, c, off);
        SameSuffix(b, c, Next(b, off));
      }
    }
  }

  /** The walk from `q` meets the entries `x`, then goes on at `r`. */
  ghost predicate Spans(b: seq<byte>, q: nat, r: nat, x: seq<Entry>) {
    Entries(b, q) == x + Entries(b, r) && Tiled(b, q) == Tiled(b, r)
  }

  /** Rewriting the bytes from `q` to `r` changes what stands there and nothing else. */
  lemma EditInPlace(b: seq<byte>, c: seq<byte>, q: nat, r: nat, x: seq<Entry>, y: seq<Entry>)
    requires Reaches(b, 0, q) && Agree(b, c, 0, q) && Agree(b, c, r, |b|)
    requires Spans(b, q, r, x) && Spans(c, q, r, y)
    ensures Entries(b, 0) == UpTo(b, 0, q) + (x + Entries(b, r))
    ensures Entries(c, 0) == UpTo(b, 0, q) + (y + Entries(b, r))
    ensures Tiled(c, 0) == Tiled(b, 0)
  {
    WalkSplits(b, 0, q);
    SamePrefix(b, c, 0, q);
    WalkSplits(c, 0, q);
    SameSuffix(b, c, r);
  }

  lemma AgreeThrough(a: seq<byte>, b: seq<byte>, c: seq<byte>, lo: nat, hi: nat)
    requires Agree(a, b, lo, hi) && Agree(b, c, lo, hi)
    ensures Agree(a, c, lo, hi)
  {
  }

  lemma AgreeInside(b: seq<byte>, c: seq<byte>, lo: nat, hi: nat, lo': nat, hi': nat)
    requires Agree(b, c, lo, hi) && lo <= lo' && hi' <= hi
    ensures Agree(b, c, lo', hi')
  {
  }

  lemma HasKept(b: seq<byte>, c: seq<byte>, lo: nat, hi: nat, at: nat, s: seq<byte>)
    requires Has(b, at, s) && Agree(b, c, lo, hi) && lo <= at && at + |s| <= hi
    ensures Has(c, at, s)
  {
  }

  // ---- The fields of a record, written and read back ----

  /** `c` is `b` with `s` written at `at`. */
  ghost predicate Wrote(b: seq<byte>, c: seq<byte>, at: nat, s: seq<byte>) {
    Has(c, at, s) && Agree(b, c, 0, at) && Agree(b, c, at + |s|, |b|)
  }

  method Store(b: seq<byte>, at: nat, s: seq<byte>) returns (c: seq<byte>)
    requires at + |s| <= |b|
    ensures Wrote(b, c, at, s)
  {
    c := b[..at] + s + b[at + |s|..];
  }

  /** The name a record can hold: the length field is one byte. */
  function Stored(name: seq<byte>): (r: seq<byte>)
    ensures |r| < 256 && (r == name <==> |name| < 256)
  {
    name[..|name| % 256]
  }

  function Needed(name: seq<byte>): (r: nat)
    ensures r >= 8 + |name| && r % 4 == 0
  {
    Round4(8 + |name|)
  }

  /** `c` holds a record at `off`, up to `r`. */
  ghost predicate Written(c: seq<byte>, off: nat, r: nat, name: seq<byte>, ino: word, kind: byte) {
    && off + 8 + |name| <= r <= |c| && r - off < 0x1_0000
    && Has(c, off, Le32(ino)) && Has(c, off + 4, Le16(r - off)) && Has(c, off + 6, [(|name| % 256) as byte, kind])
    && Has(c, off + 8, name)
  }

  lemma WrittenReads(c: seq<byte>, off: nat, r: nat, name: seq<byte>, ino: word, kind: byte)
    requires Written(c, off, r, name, ino, kind) && (r - off) % 4 == 0 && ino != 0
    ensures Good(c, off) && Next(c, off) == r && Own(c, off) == [Entry(Stored(name), ino, kind)]
  {
    WordOfLe32(c, off, ino);
    HalfOfLe16(c, off + 4, r - off);
    var t := [(|name| % 256) as byte, kind];
    assert c[off + 6 + 0] == t[0] && c[off + 6 + 1] == t[1];
    assert Good(c, off);
    HasSlice(c, off + 8, name);
    assert Name(c, off) == c[off + 8..off + 8 + |name|][..|name| % 256];
  }

  lemma LengthBytes(b: seq<byte>, off: nat)
    requires off + 8 <= |b|
    ensures RecLen(b, off) < 0x1_0000 && Has(b, off + 4, Le16(RecLen(b, off)))
  {
  }

  /** Everything but the record's length field. */
  method FillRecord(b: seq<byte>, off: nat, ghost r: nat, name: seq<byte>, ino: word, kind: byte) returns (c: seq<byte>)
    requires off + 8 + |name| <= r <= |b| && r - off < 0x1_0000 && Has(b, off + 4, Le16(r - off))
    ensures Written(c, off, r, name, ino, kind) && Agree(b, c, 0, off) && Agree(b, c, r, |b|)
  {
    ghost var n := Le16(r - off);
    var t := [(|name| % 256) as byte, kind];
    var b1 := Store(b, off, Le32(ino));
    var b2 := Store(b1, off + 6, t);
    c := Store(b2, off + 8, name);
    HasKept(b, b1, off + 4, |b|, off + 4, n);
    HasKept(b1, b2, 0, off + 6, off, Le32(ino));
    HasKept(b1, b2, 0, off + 6, off + 4, n);
    HasKept(b2, c, 0, off + 8, off, Le32(ino));
    HasKept(b2, c, 0, off + 8, off + 4, n);
    HasKept(b2, c, 0, off + 8, off + 6, t);
  }

  lemma Resized(b: seq<byte>, c: seq<byte>, off: nat, len: nat)
    requires Good(b, off) && 8 + NameLen(b, off) <= len && off + len <= |b| && len % 4 == 0 && len < 0x1_0000
    requires |c| == |b| && Agree(b, c, off, off + 4) && Agree(b, c, off + 6, off + 8 + NameLen(b, off))
    requires Has(c, off + 4, Le16(len))
    ensures Good(c, off) && Next(c, off) == off + len && Own(c, off) == Own(b, off)
    ensures NameLen(c, off) == NameLen(b, off) && Ino(c, off) == Ino(b, off)
  {
    HalfOfLe16(c, off + 4, len);
    assert Word(c, off) == Word(b, off);
    assert NameLen(c, off) == NameLen(b, off);
    assert Name(c, off) == Name(b, off);
  }

  // ---- What the edits mean ----

  lemma SpansOne(b: seq<byte>, q: nat)
    requires Good(b, q)
    ensures Spans(b, q, Next(b, q), Own(b, q))
  {
  }

  lemma SpansTwo(b: seq<byte>, q: nat, m: nat)
    requires Good(b, q) && m == Next(b, q) && Good(b, m)
    ensures Spans(b, q, Next(b, m), Own(b, q) + Own(b, m))
  {
    Assoc(Own(b, q), Own(b, m), Entries(b, Next(b, m)));
  }

  lemma Replaced(b: seq<byte>, c: seq<byte>, off: nat)
    requires Reaches(b, 0, off) && Good(b, off) && Good(c, off) && Next(c, off) == Next(b, off)
    requires Agree(b, c, 0, off) && Agree(b, c, Next(b, off), |b|)
    ensures Tiled(c, 0) == Tiled(b, 0)
    ensures Entries(b, 0) == UpTo(b, 0, off) + (Own(b, off) + Entries(b, Next(b, off)))
    ensures Entries(c, 0) == UpTo(b, 0, off) + (Own(c, off) + Entries(b, Next(b, off)))
  {
    SpansOne(b, off);
    SpansOne(c, off);
    EditInPlace(b, c, off, Next(b, off), Own(b, off), Own(c, off));
  }

  /** A deleted record is taken over whole. */
  method ReuseRecord(b: seq<byte>, off: nat, name: seq<byte>, ino: word, kind: byte) returns (c: seq<byte>)
    requires Reaches(b, 0, off) && Good(b, off) && Reusable(b, off, Needed(name)) && ino != 0
    ensures |c| == |b| && Tiled(c, 0) == Tiled(b, 0)
    ensures Entries(b, 0) == UpTo(b, 0, off) + ([] + Entries(b, Next(b, off)))
    ensures Entries(c, 0) == UpTo(b, 0, off) + ([Entry(Stored(name), ino, kind)] + Entries(b, Next(b, off)))
  {
    LengthBytes(b, off);
    c := FillRecord(b, off, Next(b, off), name, ino, kind);
    WrittenReads(c, off, Next(b, off), name, ino, kind);
    Replaced(b, c, off);
  }

  lemma Halved(b: seq<byte>, c: seq<byte>, off: nat, mid: nat)
    requires Reaches(b, 0, off) && Good(b, off) && Good(c, off) && Next(c, off) == mid && Own(c, off) == Own(b, off)
    requires Good(c, mid) && Next(c, mid) == Next(b, off)
    requires Agree(b, c, 0, off) && Agree(b, c, Next(b, off), |b|)
    ensures Tiled(c, 0) == Tiled(b, 0)
    ensures Entries(b, 0) == UpTo(b, 0, off) + (Own(b, off) + Entries(b, Next(b, off)))
    ensures Entries(c, 0) == UpTo(b, 0, off) + (Own(b, off) + Own(c, mid) + Entries(b, Next(b, off)))
  {
    SpansOne(b, off);
    SpansTwo(c, off, mid);
    EditInPlace(b, c, off, Next(b, off), Own(b, off), Own(c, off) + Own(c, mid));
  }

  /** The two length fields of a split. */
  method DivideRecord(b: seq<byte>, off: nat, u: nat) returns (c: seq<byte>)
    requires Good(b, off) && 8 + NameLen(b, off) <= u && u + 8 <= RecLen(b, off) && u % 4 == 0
    ensures |c| == |b| && RecLen(b, off) < 0x1_0000
    ensures Good(c, off) && Next(c, off) == off + u && Own(c, off) == Own(b, off)
    ensures Has(c, off + u + 4, Le16(RecLen(b, off) - u)) && Agree(b, c, 0, off) && Agree(b, c, Next(b, off), |b|)
  {
    LengthBytes(b, off);
    var b1 := Store(b, off + 4, Le16(u));
    AgreeInside(b, b1, 0, off + 4, off, off + 4);
    AgreeInside(b, b1, off + 6, |b|, off + 6, off + 8 + NameLen(b, off));
    Resized(b, b1, off, u);
    c := Store(b1, off + u + 4, Le16(RecLen(b, off) - u));
    AgreeInside(b1, c, 0, off + u + 4, off, Next(b1, off));
    SameOwn(b1, c, off);
    AgreeInside(b, b1, 0, off + 4, 0, off);
    AgreeInside(b1, c, 0, off + u + 4, 0, off);
    AgreeThrough(b, b1, c, 0, off);
    AgreeInside(b, b1, off + 6, |b|, Next(b, off), |b|);
    AgreeInside(b1, c, off + u + 6, |b|, Next(b, off), |b|);
    AgreeThrough(b, b1, c, Next(b, off), |b|);
  }

  lemma Difference4(a: nat, b: nat)
    requires a % 4 == 0 && b % 4 == 0 && b <= a
    ensures (a - b) % 4 == 0
  {
  }

  /** The first `u` bytes of a record stay with its entry, the rest goes to the new one. */
  method SplitAt(b: seq<byte>, off: nat, u: nat, name: seq<byte>, ino: word, kind: byte) returns (c: seq<byte>)
    requires Good(b, off) && 8 + NameLen(b, off) <= u && u + 8 + |name| <= RecLen(b, off) && u % 4 == 0 && ino != 0
    ensures |c| == |b| && Agree(b, c, 0, off) && Agree(b, c, Next(b, off), |b|)
    ensures Good(c, off) && Next(c, off) == off + u && Own(c, off) == Own(b, off)
    ensures Good(c, off + u) && Next(c, off + u) == Next(b, off)
    ensures Own(c, off + u) == [Entry(Stored(name), ino, kind)]
  {
    ghost var r := Next(b, off);
    var b1 := DivideRecord(b, off, u);
    c := FillRecord(b1, off + u, r, name, ino, kind);
    Difference4(RecLen(b, off), u);
    WrittenReads(c, off + u, r, name, ino, kind);
    AgreeInside(b1, c, 0, off + u, off, off + u);
    SameOwn(b1, c, off);
    AgreeInside(b1, c, 0, off + u, 0, off);
    AgreeThrough(b, b1, c, 0, off);
    AgreeThrough(b, b1, c, r, |b|);
  }

  /** A record with space left over gives it up and keeps its own entry. */
  method SplitRecord(b: seq<byte>, off: nat, name: seq<byte>, ino: word, kind: byte) returns (c: seq<byte>)
    requires Reaches(b, 0, off) && Good(b, off) && RecLen(b, off) - Used(b, off) >= Needed(name) && ino != 0
    ensures |c| == |b| && Tiled(c, 0) == Tiled(b, 0)
    ensures Entries(b, 0) == UpTo(b, 0, off) + (Own(b, off) + Entries(b, Next(b, off)))
    ensures Entries(c, 0) ==
            UpTo(b, 0, off) + (Own(b, off) + [Entry(Stored(name), ino, kind)] + Entries(b, Next(b, off)))
  {
    c := SplitAt(b, off, Used(b, off), name, ino, kind);
    Halved(b, c, off, off + Used(b, off));
  }

  /** A block of its own for an entry no other block has room for. */
  method FreshBlock(bs: nat, name: seq<byte>, ino: word, kind: byte) returns (c: seq<byte>)
    requires 8 + |name| <= bs < 0x1_0000 && bs % 4 == 0 && ino != 0
    ensures |c| == bs && Tiled(c, 0) && Entries(c, 0) == [Entry(Stored(name), ino, kind)]
  {
    c := Store(seq(bs, _ => 0 as byte), 4, Le16(bs));
    c := FillRecord(c, 0, bs, name, ino, kind);
    WrittenReads(c, 0, bs, name, ino, kind);
    assert !Good(c, bs) && Tiled(c, bs);
    assert Entries(c, 0) == Own(c, 0) + [];
  }

  lemma EmptiedHead(b: seq<byte>, c: seq<byte>)
    requires Good(b, 0) && Agree(b, c, 4, |b|) && Word(c, 0) == 0
    ensures Good(c, 0) && Next(c, 0) == Next(b, 0) && NameLen(c, 0) == NameLen(b, 0) && Own(c, 0) == []
  {
    assert RecLen(c, 0) == RecLen(b, 0) && NameLen(c, 0) == NameLen(b, 0);
  }

  lemma Emptied(b: seq<byte>, c: seq<byte>)
    requires Good(b, 0) && Good(c, 0) && Next(c, 0) == Next(b, 0) && Own(c, 0) == [] && Agree(b, c, Next(b, 0), |b|)
    ensures Tiled(c, 0) == Tiled(b, 0) && Entries(c, 0) == Entries(b, Next(b, 0))
  {
    SameSuffix(b, c, Next(b, 0));
    SpansOne(c, 0);
    SpansOne(b, 0);
    assert [] + Entries(c, Next(b, 0)) == Entries(c, Next(b, 0));
  }

  function Patch(b: seq<byte>, at: nat, s: seq<byte>): (c: seq<byte>)
    requires at + |s| <= |b|
    ensures |c| == |b|
  {
    seq(|b|, i requires 0 <= i < |b| => if at <= i < at + |s| then s[i - at] else b[i])
  }

  lemma WroteIsPatch(b: seq<byte>, c: seq<byte>, at: nat, s: seq<byte>)
    requires Wrote(b, c, at, s)
    ensures c == Patch(b, at, s)
  {
    forall i | 0 <= i < |b| ensures c[i] == Patch(b, at, s)[i] {
      if at <= i < at + |s| {
        assert c[at + (i - at)] == s[i - at];
      }
    }
  }

  /** The record at `prev`, if there is one, is the one before the record at `off`. */
  predicate Before(b: seq<byte>, prev: nat, off: nat) {
    off > 0 ==> Good(b, prev) && Next(b, prev) == off
  }

  function Together(b: seq<byte>, off: nat, prev: nat): (r: nat)
    requires Good(b, off) && Before(b, prev, off) && 0 < off
    ensures prev + r <= |b|
  {
    RecLen(b, prev) + RecLen(b, off)
  }

  /** The block without the record at `off`. */
  function Struck(b: seq<byte>, off: nat, prev: nat): (c: seq<byte>)
    requires Good(b, off) && Before(b, prev, off) && |b| < 0x1_0000
    ensures |c| == |b|
  {
    if off == 0 then Patch(b, 0, Le32(0)) else Patch(b, prev + 4, Le16(Together(b, off, prev)))
  }

  /** The record at `prev` has grown by the one at `off` behind it, or the record at 0 has been emptied. */
  ghost predicate Grown(b: seq<byte>, c: seq<byte>, off: nat, prev: nat) {
    && Good(b, off) && Good(b, prev) && prev <= off
    && Good(c, prev) && Next(c, prev) == Next(b, off) && NameLen(c, prev) == NameLen(b, prev)
    && if off == 0 then prev == 0 && Ino(c, 0) == 0 else Next(b, prev) == off && Ino(c, prev) == Ino(b, prev)
  }

  /** In `c` the bytes of the record at `off` of `b` are free. */
  ghost predicate Freed(b: seq<byte>, c: seq<byte>, off: nat, prev: nat) {
    Grown(b, c, off, prev) && Agree(b, c, 0, prev) && Agree(b, c, Next(b, off), |b|)
  }

  lemma GrownTakes(b: seq<byte>, c: seq<byte>, off: nat, prev: nat)
    requires Grown(b, c, off, prev)
    ensures Takes(c, prev, Used(b, off))
  {
    assert Used(c, prev) == Used(b, prev);
  }

  lemma GrownTakesNoMore(b: seq<byte>, c: seq<byte>, off: nat, prev: nat, n: nat)
    requires Grown(b, c, off, prev) && !Takes(b, prev, n) && !Takes(b, off, n)
    ensures !Takes(c, prev, Used(b, off) + 2 * n)
  {
    assert Used(c, prev) == Used(b, prev);
  }

  /** The first record of a block is emptied. */
  method ClearRecord(b: seq<byte>) returns (c: seq<byte>)
    requires Good(b, 0)
    ensures |c| == |b| && Tiled(c, 0) == Tiled(b, 0)
    ensures Entries(b, 0) == Own(b, 0) + Entries(b, Next(b, 0))
    ensures Entries(c, 0) == Entries(b, Next(b, 0))
    ensures |b| < 0x1_0000 ==> c == Struck(b, 0, 0)
    ensures Freed(b, c, 0, 0)
  {
    c := Store(b, 0, Le32(0));
    WroteIsPatch(b, c, 0, Le32(0));
    WordOfLe32(c, 0, 0);
    EmptiedHead(b, c);
    AgreeInside(b, c, 4, |b|, Next(b, 0), |b|);
    Emptied(b, c);
  }

  lemma Swallowed(b: seq<byte>, c: seq<byte>, prev: nat, off: nat)
    requires Reaches(b, 0, prev) && Good(b, prev) && off == Next(b, prev) && Good(b, off)
    requires Good(c, prev) && Next(c, prev) == Next(b, off) && Own(c, prev) == Own(b, prev)
    requires Agree(b, c, 0, prev) && Agree(b, c, Next(b, off), |b|)
    ensures Tiled(c, 0) == Tiled(b, 0)
    ensures Entries(b, 0) == UpTo(b, 0, prev) + (Own(b, prev) + Own(b, off) + Entries(b, Next(b, off)))
    ensures Entries(c, 0) == UpTo(b, 0, prev) + (Own(b, prev) + Entries(b, Next(b, off)))
  {
    SpansTwo(b, prev, off);
    SpansOne(c, prev);
    EditInPlace(b, c, prev, Next(b, off), Own(b, prev) + Own(b, off), Own(b, prev));
  }

  method Lengthen(b: seq<byte>, off: nat, len: nat) returns (c: seq<byte>)
    requires Good(b, off) && RecLen(b, off) <= len < 0x1_0000 && off + len <= |b| && len % 4 == 0
    ensures |c| == |b| && Agree(b, c, 0, off) && Agree(b, c, off + len, |b|)
    ensures Good(c, off) && Next(c, off) == off + len && Own(c, off) == Own(b, off)
    ensures NameLen(c, off) == NameLen(b, off) && Ino(c, off) == Ino(b, off) && Wrote(b, c, off + 4, Le16(len))
  {
    c := Store(b, off + 4, Le16(len));
    AgreeInside(b, c, 0, off + 4, 0, off);
    AgreeInside(b, c, 0, off + 4, off, off + 4);
    AgreeInside(b, c, off + 6, |b|, off + 6, off + 8 + NameLen(b, off));
    AgreeInside(b, c, off + 6, |b|, off + len, |b|);
    Resized(b, c, off, len);
  }

  method JoinRecords(b: seq<byte>, prev: nat, off: nat) returns (c: seq<byte>)
    requires Good(b, off) && Before(b, prev, off) && 0 < off && |b| < 0x1_0000
    ensures c == Struck(b, off, prev) && Freed(b, c, off, prev) && Own(c, prev) == Own(b, prev)
  {
    c := Lengthen(b, prev, Together(b, off, prev));
    WroteIsPatch(b, c, prev + 4, Le16(Together(b, off, prev)));
  }

  /** Any other record is swallowed by the one before it. */
  method MergeRecord(b: seq<byte>, prev: nat, off: nat) returns (c: seq<byte>)
    requires Reaches(b, 0, prev) && Good(b, prev) && off == Next(b, prev) && Good(b, off) && |b| < 0x1_0000
    ensures |c| == |b| && Tiled(c, 0) == Tiled(b, 0)
    ensures Entries(b, 0) == UpTo(b, 0, prev) + (Own(b, prev) + Own(b, off) + Entries(b, Next(b, off)))
    ensures Entries(c, 0) == UpTo(b, 0, prev) + (Own(b, prev) + Entries(b, Next(b, off)))
    ensures c == Struck(b, off, prev) && Freed(b, c, off, prev)
  {
    c := JoinRecords(b, prev, off);
    Swallowed(b, c, prev, off);
  }

  // ---- Room for a new record ----

  lemma {:induction false} RoomyAt(b: seq<byte>, off: nat, q: nat, needed: nat)
    requires Reaches(b, off, q) && Roomy(b, q, needed)
    ensures Roomy(b, off, needed)
    decreases |b| - off
  {
    if off != q {
      RoomyAt(b, Next(b, off), q, needed);
    }
  }

  lemma {:induction false} RoomyLess(b: seq<byte>, off: nat, n: nat, m: nat)
    requires Roomy(b, off, n) && m <= n
    ensures Roomy(b, off, m)
    decreases |b| - off
  {
    if !Takes(b, off, n) {
      RoomyLess(b, Next(b, off), n, m);
    }
  }

  lemma {:induction false} SameRoom(b: seq<byte>, c: seq<byte>, off: nat, n: nat)
    requires Agree(b, c, off, |b|)
    ensures Roomy(c, off, n) == Roomy(b, off, n)
    decreases |b| - off
  {
    if off + 8 <= |b| {
      SameRecord(b, c, off);
      if Good(b, off) {
        SameRoom(b, c, Next(b, off), n);
      }
    }
  }

  /** Records that do not take `n` bytes do not take `m`. */
  lemma {:induction false} NoRoomBefore(b: seq<byte>, c: seq<byte>, off: nat, q: nat, n: nat, m: nat)
    requires Reaches(b, off, q) && Agree(b, c, off, q) && !Roomy(b, off, n) && n <= m && !Roomy(c, q, m)
    ensures !Roomy(c, off, m) && !Roomy(b, q, n)
    decreases |b| - off
  {
    if off != q {
      SameRecord(b, c, off);
      NoRoomBefore(b, c, Next(b, off), q, n, m);
    }
  }

  /** A record that has been struck makes room for any record of its size. */
  lemma FreedTakes(b: seq<byte>, c: seq<byte>, off: nat, prev: nat)
    requires Freed(b, c, off, prev) && Reaches(b, 0, prev)
    ensures Roomy(c, 0, Used(b, off))
  {
    SamePrefix(b, c, 0, prev);
    GrownTakes(b, c, off, prev);
    RoomyAt(c, 0, prev, Used(b, off));
  }

  /** It makes no more than that, apart from what was left over around it. */
  lemma FreedTakesNoMore(b: seq<byte>, c: seq<byte>, off: nat, prev: nat, n: nat)
    requires Freed(b, c, off, prev) && Reaches(b, 0, prev) && !Roomy(b, 0, n)
    ensures !Roomy(c, 0, Used(b, off) + 2 * n)
  {
    var m := Used(b, off) + 2 * n;
    if Roomy(b, prev, n) {
      RoomyAt(b, 0, prev, n);
    }
    assert !Roomy(b, off, n);
    SameRoom(b, c, Next(b, off), m);
    if Roomy(b, Next(b, off), m) {
      RoomyLess(b, Next(b, off), m, n);
    }
    GrownTakesNoMore(b, c, off, prev, n);
    NoRoomBefore(b, c, 0, prev, n, m);
  }
}
