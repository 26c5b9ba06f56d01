/** Loading the boot archive and reading from it: src/drivers/initrd.c. */
module Initrd {
  import opened Words
  import opened TarFields
  import opened TarHeader
  import opened InitrdPaths
  import opened InitrdTree
  import TarArchive

  const KIND_DIR: byte := 53

  // ---- What loading should do to the map of paths ----

  function WithDir(m: map<Path, Leaf>, q: Path): map<Path, Leaf> {
    if q in m then m else m[q := Dir]
  }

  /** `q` and everything above it exist, if need be as directories. */
  function WithDirs(m: map<Path, Leaf>, q: Path): map<Path, Leaf> {
    if q == [] then m else WithDir(WithDirs(m, q[..|q| - 1]), q)
  }

  /** One member of the archive. */
  function Step(m: map<Path, Leaf>, f: TarArchive.Found): map<Path, Leaf> {
    var s := StripDot(f.name);
    var q := Split(Trim(s));
    if q == [] then m
    else if f.kind == KIND_DIR || Trailing(s) then WithDirs(m, q)
    else WithDirs(m, q[..|q| - 1])[q := File(f.offset, f.size)]
  }

  function After(m: map<Path, Leaf>, fs: seq<TarArchive.Found>): map<Path, Leaf> {
    if fs == [] then m else Step(After(m, fs[..|fs| - 1]), fs[|fs| - 1])
  }

  const ROOT: map<Path, Leaf> := map[[] := Dir]

  // ---- Character loops ----

  method SkipSlashes(s: Name, i: nat) returns (j: nat)
    requires i <= |s|
    ensures i <= j <= |s| && s[j..] == Skip(s[i..])
  {
    j := i;
    while j < |s| && s[j] == SLASH
      invariant i <= j <= |s| && Skip(s[j..]) == Skip(s[i..])
    {
      assert s[j..][1..] == s[j + 1..];
      j := j + 1;
    }
  }

  method Component(s: Name, i: nat) returns (part: Name, j: nat)
    requires i <= |s|
    ensures part == Clip(FirstPart(s[i..])) && j == i + |FirstPart(s[i..])| && j <= |s|
  {
    part, j := [], i;
    ghost var seen: Name := [];
    while j < |s| && s[j] != SLASH
      invariant i <= j <= |s| && |seen| == j - i && FirstPart(s[i..]) == seen + FirstPart(s[j..])
      invariant part == Clip(seen)
    {
      assert s[j..][1..] == s[j + 1..];
      assert seen + FirstPart(s[j..]) == seen + [s[j]] + FirstPart(s[j + 1..]);
      if |part| + 1 < 128 {
        part := part + [s[j]];
      }
      seen := seen + [s[j]];
      j := j + 1;
    }
    assert seen + [] == seen;
  }

  lemma SplitSkips(s: Name)
    ensures Split(Skip(s)) == Split(s) && Skip(Skip(s)) == Skip(s)
    ensures Skip(s) == [] <==> Split(s) == []
  {
  }

  /** One component and the slashes after it. */
  method TakePart(s: Name, i: nat) returns (part: Name, k: nat)
    requires i < |s| && Skip(s[i..]) == s[i..]
    ensures i < k <= |s| && Skip(s[k..]) == s[k..]
    ensures Split(s[i..]) == [part] + Split(s[k..]) && (k == |s| <==> Split(s[k..]) == [])
  {
    ghost var t := s[i..];
    var j;
    part, j := Component(s, i);
    assert t[|FirstPart(t)|..] == s[j..];
    SplitSkips(s[j..]);
    k := SkipSlashes(s, j);
  }

  lemma {:induction false} ChainNext(es: seq<Entry>, from: int, c: int)
    requires Formed(es) && NONE <= from < |es| && 0 <= c < |es| && OnChain(es, from, c) && es[c].sibling != NONE
    ensures OnChain(es, from, es[c].sibling)
    decreases from
  {
    if from != c {
      ChainNext(es, es[from].sibling, c);
    } else {
      assert OnChain(es, es[c].sibling, es[c].sibling);
    }
  }

  lemma ChildInMap(es: seq<Entry>, m: map<Path, Leaf>, p: int, name: Name, c: int)
    requires Represents(es, m) && 0 <= p < |es|
    requires c == NONE ==> forall i :: 0 < i < |es| && es[i].parent == p ==> es[i].name != name
    requires c != NONE ==> 0 < c < |es| && es[c].parent == p && es[c].name == name
    ensures c == NONE <==> PathOf(es, p) + [name] !in m
    ensures c != NONE ==> PathOf(es, c) == PathOf(es, p) + [name]
  {
    var q := PathOf(es, p) + [name];
    if c != NONE {
      assert Entered(es, m, c);
    } else if q in m {
      assert Exists(es, q);
      var i :| 0 <= i < |es| && PathOf(es, i) == q;
      ChildPath(es, p, i, name);
    }
  }

  /** A header block, examined as the loop does. */
  method Examine(h: seq<byte>) returns (r: Head)
    requires |h| == BLOCK
    ensures r == ReadHead(h)
  {
    if ZeroBlock(h) {
      return Stop;
    }
    var size := ParseOctal(h[124..136]);
    if size > SIZE_LIMIT {
      return Refused;
    }
    var declared := ParseOctal(h[SUM_AT..SUM_END]);
    var sum := ReadChecksum(h);
    if declared != sum {
      return Refused;
    }
    r := Taken(NameOf(h), KindOf(h), size);
  }

  /** What the loop finds at a position: the end, a reason to give up, or a member and where to go on. */
  datatype Turn = Finished | Broken | Have(f: TarArchive.Found, next: nat)

  method NextMember(tar: seq<byte>, pos: nat, ghost done: seq<TarArchive.Found>, ghost rd: TarArchive.Reader)
      returns (r: Turn)
    requires pos <= |tar| && rd == ReadHead
    ensures r.Finished? ==> TarArchive.Scan(rd, tar, pos) == Some([])
    ensures r.Broken? ==> TarArchive.Scan(rd, tar, pos) == None
    ensures r.Have? ==> pos < r.next <= |tar|
    ensures r.Have? ==> TarArchive.Prepend(done, TarArchive.Scan(rd, tar, pos))
                        == TarArchive.Prepend(done + [r.f], TarArchive.Scan(rd, tar, r.next))
  {
    TarArchive.ScanEnds(rd, tar, pos);
    if pos + BLOCK > |tar| {
      return Finished;
    }
    var head := Examine(tar[pos..pos + BLOCK]);
    assert head == rd(tar[pos..pos + BLOCK]);
    if head.Stop? {
      return Finished;
    }
    if head.Refused? || pos + TarArchive.Advance(head.size) > |tar| {
      TarArchive.ScanFails(rd, tar, pos);
      return Broken;
    }
    var f := TarArchive.Found(head.name, head.kind, pos + BLOCK, head.size);
    var next := pos + TarArchive.Advance(head.size);
    TarArchive.ScanOn(rd, tar, pos, done, f, next);
    r := Have(f, next);
  }

  class Table {
    var es: seq<Entry>
    ghost var m: map<Path, Leaf>

    ghost predicate Valid()
      reads this
    {
      Represents(es, m)
    }

    constructor ()
      ensures Valid() && m == ROOT
    {
      var root := Entry([], false, 0, 0, NONE, NONE, NONE);
      es, m := [root], ROOT;
      new;
      assert PathOf(es, 0) == [];
      assert Entered(es, m, 0) && Exists(es, []);
    }

    /** The walk along the children of `p`. */
    method FindChild(p: int, name: Name) returns (c: int)
      requires Valid() && 0 <= p < |es|
      ensures c == NONE <==> PathOf(es, p) + [name] !in m
      ensures c == NONE ==> forall i :: 0 < i < |es| && es[i].parent == p ==> es[i].name != name
      ensures c != NONE ==> 0 < c < |es| && PathOf(es, c) == PathOf(es, p) + [name]
    {
      c := es[p].child;
      assert forall i :: 0 < i < |es| && es[i].parent == p ==> OnChain(es, es[p].child, i);
      while c != NONE
        invariant NONE <= c < |es| && (c != NONE ==> OnChain(es, es[p].child, c) && c > 0)
        invariant forall i :: 0 < i < |es| && es[i].parent == p && !OnChain(es, c, i) ==> es[i].name != name
        decreases c
      {
        if es[c].name == name {
          break;
        }
        if es[c].sibling != NONE {
          ChainNext(es, es[p].child, c);
        }
        c := es[c].sibling;
      }
      ChildInMap(es, m, p, name, c);
    }

    /** A new entry at the front of the children of `p`. */
    method AddChild(p: int, name: Name, isFile: bool) returns (c: int)
      requires Valid() && 0 <= p < |es|
      requires forall i :: 0 < i < |es| && es[i].parent == p ==> es[i].name != name
      modifies this
      ensures Valid() && c == |old(es)| && |es| == c + 1 && PathOf(es, c) == old(PathOf(es, p)) + [name]
      ensures m == old(m)[old(PathOf(es, p)) + [name] := if isFile then File(0, 0) else Dir]
    {
      AddedRepresents(es, m, p, name, isFile);
      c := |es|;
      m := m[PathOf(es, p) + [name] := if isFile then File(0, 0) else Dir];
      es := es + [Entry(name, isFile, 0, 0, p, NONE, es[p].child)];
      es := es[p := es[p].(child := c)];
      assert es == Added(old(es), p, name, isFile);
    }

    method EnsureDir(p: int, name: Name) returns (c: int)
      requires Valid() && 0 <= p < |es|
      modifies this
      ensures Valid() && 0 <= c < |es| && PathOf(es, c) == old(PathOf(es, p)) + [name]
      ensures m == WithDir(old(m), old(PathOf(es, p)) + [name])
    {
      c := FindChild(p, name);
      if c == NONE {
        c := AddChild(p, name, false);
      }
    }

    /** All directories above the last component of `s`, which is left to the caller. */
    method EnsurePath(s: Name) returns (parent: int, leaf: Name)
      requires Valid()
      modifies this
      ensures Valid()
      ensures Split(s) == [] ==> parent == NONE && m == old(m)
      ensures Split(s) != [] ==> m == WithDirs(old(m), Split(s)[..|Split(s)| - 1]) && 0 <= parent < |es|
                                 && PathOf(es, parent) == Split(s)[..|Split(s)| - 1] && leaf == Split(s)[|Split(s)| - 1]
    {
      ghost var q, d := Split(s), 0;
      var cur := 0;
      var i := SkipSlashes(s, 0);
      SplitSkips(s);
      assert s[0..] == s;
      parent, leaf := NONE, [];
      while i < |s|
        invariant i <= |s| && Valid() && 0 <= cur < |es| && Skip(s[i..]) == s[i..]
        invariant d <= |q| && q[d..] == Split(s[i..]) && PathOf(es, cur) == q[..d] && m == WithDirs(old(m), q[..d])
        invariant i == |s| ==> q == []
        decreases |s| - i
      {
        var part, k := TakePart(s, i);
        NextPart(q, d, part, Split(s[k..]));
        if k == |s| {
          return cur, part;
        }
        cur := EnsureDir(cur, part);
        i, d := k, d + 1;
      }
    }

    method MakeFile(parent: int, leaf: Name, offset: nat, size: nat)
      requires Valid() && 0 <= parent < |es|
      modifies this
      ensures Valid() && m == old(m)[old(PathOf(es, parent)) + [leaf] := File(offset, size)]
    {
      var c := FindChild(parent, leaf);
      if c == NONE {
        c := AddChild(parent, leaf, true);
      }
      FiledRepresents(es, m, c, offset, size);
      m := m[PathOf(es, c) := File(offset, size)];
      es := es[c := es[c].(isFile := true, offset := offset, length := size)];
    }

    /** One member of the archive goes into the table. */
    method Place(f: TarArchive.Found)
      requires Valid()
      modifies this
      ensures Valid() && m == Step(old(m), f)
    {
      var s := StripDot(f.name);
      var dir := f.kind == KIND_DIR || Trailing(s);
      s := Trim(s);
      if s != [] {
        var parent, leaf := EnsurePath(s);
        if parent != NONE {
          ghost var q := Split(s);
          assert q == q[..|q| - 1] + [leaf];
          if dir {
            var _ := EnsureDir(parent, leaf);
          } else {
            MakeFile(parent, leaf, f.offset, f.size);
          }
        }
      }
    }

    /** The archive is taken in whole or not at all. */
    method Load(tar: seq<byte>, ghost rd: TarArchive.Reader) returns (ok: bool)
      requires Valid() && m == ROOT && rd == ReadHead
      modifies this
      ensures ok <==> TarArchive.Scan(rd, tar, 0).Some?
      ensures ok ==> Valid() && m == After(ROOT, TarArchive.Scan(rd, tar, 0).value)
    {
      var pos := 0;
      ghost var done: seq<TarArchive.Found> := [];
      ghost var all := TarArchive.Scan(rd, tar, 0);
      assert all.Some? ==> [] + all.value == all.value;
      while true
        invariant pos <= |tar| && Valid() && m == After(ROOT, done)
        invariant all == TarArchive.Prepend(done, TarArchive.Scan(rd, tar, pos))
        decreases |tar| - pos
      {
        var turn := NextMember(tar, pos, done, rd);
        match turn
        case Finished =>
          assert done + [] == done;
          return true;
        case Broken =>
          return false;
        case Have(f, next) =>
          Place(f);
          assert (done + [f])[..|done|] == done;
          pos, done := next, done + [f];
      }
    }
  }

  lemma NextPart(q: Path, d: nat, part: Name, rest: Path)
    requires d <= |q| && q[d..] == [part] + rest
    ensures d < |q| && q[d] == part && q[d + 1..] == rest && q[..d + 1] == q[..d] + [part]
    ensures q[..d + 1][..d] == q[..d] && (rest == [] ==> d == |q| - 1)
  {
    assert q[d] == q[d..][0] && q[d + 1..] == q[d..][1..];
  }
}
