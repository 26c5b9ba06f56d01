/** The archive around the headers: built by tools/mkinitrd.c, walked by the loop in src/drivers/initrd.c. */
module TarArchive {
  import opened Seqs
  import opened Words
  import opened TarFields
  import opened TarHeader

  datatype File = File(name: seq<byte>, data: seq<byte>)

  /** One member of an archive, as the reader finds it. */
  datatype Found = Found(name: seq<byte>, kind: byte, offset: nat, size: nat)

  // ---- Layout, for any kind of header block ----

  type Writer = File -> seq<byte>
  type Reader = seq<byte> -> Head

  function Padding(len: nat): nat {
    (BLOCK - len % BLOCK) % BLOCK
  }

  function Member(w: Writer, f: File): seq<byte> {
    w(f) + f.data + Zeros(Padding(|f.data|))
  }

  function Members(w: Writer, fs: seq<File>): seq<byte> {
    if fs == [] then [] else Member(w, fs[0]) + Members(w, fs[1..])
  }

  /** All members, then two zero blocks. */
  function Archive(w: Writer, fs: seq<File>): seq<byte> {
    Members(w, fs) + Zeros(2 * BLOCK)
  }

  function Advance(size: nat): (r: nat)
    ensures r >= BLOCK
  {
    BLOCK + (size + (BLOCK - 1)) / BLOCK * BLOCK
  }

  /** All members from `pos` on; nothing at all if one of them is refused. */
  function Scan(rd: Reader, tar: seq<byte>, pos: nat): Option<seq<Found>>
    decreases |tar| - pos
  {
    if pos + BLOCK > |tar| then Some([])
    else
      match rd(tar[pos..pos + BLOCK])
      case Stop => Some([])
      case Refused => None
      case Taken(name, kind, size) =>
        if pos + Advance(size) > |tar| then None
        else
          var rest := Scan(rd, tar, pos + Advance(size));
          if rest.None? then None else Some([Found(name, kind, pos + BLOCK, size)] + rest.value)
  }

  /** A member takes its header and as many whole blocks as its content needs. */
  lemma AdvanceIs(size: nat)
    ensures Advance(size) % BLOCK == 0 && size <= Advance(size) - BLOCK < size + BLOCK
  {
  }

  function Prepend(done: seq<Found>, r: Option<seq<Found>>): Option<seq<Found>> {
    if r.None? then None else Some(done + r.value)
  }

  lemma ScanEnds(rd: Reader, tar: seq<byte>, pos: nat)
    ensures pos + BLOCK > |tar| ==> Scan(rd, tar, pos) == Some([])
    ensures pos + BLOCK <= |tar| && rd(tar[pos..pos + BLOCK]) == Stop ==> Scan(rd, tar, pos) == Some([])
  {
  }

  lemma ScanFails(rd: Reader, tar: seq<byte>, pos: nat)
    requires pos + BLOCK <= |tar|
    requires var h := rd(tar[pos..pos + BLOCK]); h.Refused? || (h.Taken? && pos + Advance(h.size) > |tar|)
    ensures Scan(rd, tar, pos) == None
  {
  }

  lemma ScanOn(rd: Reader, tar: seq<byte>, pos: nat, done: seq<Found>, f: Found, next: nat)
    requires pos + BLOCK <= |tar| && rd(tar[pos..pos + BLOCK]) == Taken(f.name, f.kind, f.size)
    requires f.offset == pos + BLOCK && next == pos + Advance(f.size) <= |tar|
    ensures Prepend(done, Scan(rd, tar, pos)) == Prepend(done + [f], Scan(rd, tar, next))
  {
    var rest := Scan(rd, tar, next);
    if rest.Some? {
      assert done + ([f] + rest.value) == done + [f] + rest.value;
    }
  }

  // ---- Writing ----

  lemma {:induction false} MembersAppend(w: Writer, fs: seq<File>, f: File)
    ensures Members(w, fs + [f]) == Members(w, fs) + Member(w, f)
  {
    if fs == [] {
      assert fs + [f] == [f] && [f][1..] == [];
      assert Members(w, [f]) == Member(w, f) + [];
    } else {
      MembersAppend(w, fs[1..], f);
      assert (fs + [f])[1..] == fs[1..] + [f];
      Assoc(Member(w, fs[0]), Members(w, fs[1..]), Member(w, f));
    }
  }

  function HeaderOf(f: File): seq<byte> {
    Header(f.name, |f.data|)
  }

  method PackOne(f: File) returns (m: seq<byte>)
    ensures m == Member(HeaderOf, f)
  {
    var h := BuildHeader(f.name, |f.data|);
    m := h + f.data + Zeros((BLOCK - |f.data| % BLOCK) % BLOCK);
  }

  lemma MembersNext(w: Writer, fs: seq<File>, i: nat)
    requires i < |fs|
    ensures Members(w, fs[..i + 1]) == Members(w, fs[..i]) + Member(w, fs[i])
  {
    MembersAppend(w, fs[..i], fs[i]);
    assert fs[..i + 1] == fs[..i] + [fs[i]];
  }

  method PackMembers(files: seq<File>) returns (tar: seq<byte>)
    ensures tar == Members(HeaderOf, files)
  {
    tar := [];
    var i := 0;
    while i < |files|
      invariant i <= |files| && tar == Members(HeaderOf, files[..i])
    {
      MembersNext(HeaderOf, files, i);
      var m := PackOne(files[i]);
      tar := tar + m;
      i := i + 1;
    }
    assert files[..i] == files;
  }

  method Pack(files: seq<File>) returns (tar: seq<byte>)
    ensures tar == Archive(HeaderOf, files)
  {
    var members := PackMembers(files);
    tar := members + Zeros(2 * BLOCK);
  }

  // ---- What is written is read back ----

  lemma PaddingAdvances(len: nat)
    ensures BLOCK + len + Padding(len) == Advance(len)
  {
    var q, m := len / BLOCK, len % BLOCK;
    assert len == BLOCK * q + m;
    if m == 0 {
      assert (len + 511) / BLOCK == q;
    } else {
      assert (len + 511) / BLOCK == q + 1;
    }
  }

  /** What the reader should find for `fs` when the first header stands at `pos`. */
  function Expected(fs: seq<File>, pos: nat): seq<Found> {
    if fs == [] then []
    else [Found(fs[0].name, ZERO, pos + BLOCK, |fs[0].data|)] + Expected(fs[1..], pos + Advance(|fs[0].data|))
  }

  /** The reader understands the header written for `f`. */
  ghost predicate Inverse(rd: Reader, w: Writer, f: File) {
    |w(f)| == BLOCK && rd(w(f)) == Taken(f.name, ZERO, |f.data|)
  }

  /** `tar` goes on with `part` at `pos`, and after that with `rest`. */
  lemma Suffixes(tar: seq<byte>, pos: nat, part: seq<byte>, rest: seq<byte>)
    requires pos <= |tar| && tar[pos..] == part + rest
    ensures pos + |part| <= |tar| && tar[pos..pos + |part|] == part && tar[pos + |part|..] == rest
  {
    assert tar[pos..pos + |part|] == tar[pos..][..|part|];
    assert tar[pos + |part|..] == tar[pos..][|part|..];
  }

  lemma OneMember(tar: seq<byte>, pos: nat, h: seq<byte>, d: seq<byte>, z: seq<byte>, rest: seq<byte>)
    requires pos <= |tar| && tar[pos..] == h + d + z + rest && |h| == BLOCK && |z| == Padding(|d|)
    ensures pos + Advance(|d|) <= |tar| && tar[pos + Advance(|d|)..] == rest
    ensures tar[pos..pos + BLOCK] == h
    ensures pos + BLOCK + |d| <= |tar| && tar[pos + BLOCK..pos + BLOCK + |d|] == d
  {
    PaddingAdvances(|d|);
    Suffixes(tar, pos, h + d + z, rest);
    Assoc(h + d, z, rest);
    Assoc(h, d, z + rest);
    Suffixes(tar, pos, h, d + (z + rest));
    Suffixes(tar, pos + BLOCK, d, z + rest);
  }

  /** The member for `f` stands at `pos`. */
  ghost predicate MemberAt(w: Writer, tar: seq<byte>, pos: nat, f: File) {
    && pos + Advance(|f.data|) <= |tar| && tar[pos..pos + BLOCK] == w(f)
    && pos + BLOCK + |f.data| <= |tar| && tar[pos + BLOCK..pos + BLOCK + |f.data|] == f.data
  }

  lemma FirstMember(w: Writer, tar: seq<byte>, pos: nat, fs: seq<File>)
    requires fs != [] && |w(fs[0])| == BLOCK && pos <= |tar| && tar[pos..] == Archive(w, fs)
    ensures MemberAt(w, tar, pos, fs[0]) && tar[pos + Advance(|fs[0].data|)..] == Archive(w, fs[1..])
  {
    Assoc(Member(w, fs[0]), Members(w, fs[1..]), Zeros(2 * BLOCK));
    OneMember(tar, pos, w(fs[0]), fs[0].data, Zeros(Padding(|fs[0].data|)), Archive(w, fs[1..]));
  }

  lemma NoMember(rd: Reader, tar: seq<byte>, pos: nat)
    requires pos <= |tar| && tar[pos..] == Zeros(2 * BLOCK) && rd(Zeros(BLOCK)) == Stop
    ensures Scan(rd, tar, pos) == Some([])
  {
    assert tar[pos..pos + BLOCK] == Zeros(BLOCK);
  }

  lemma {:induction false} ScanFinds(rd: Reader, w: Writer, tar: seq<byte>, pos: nat, fs: seq<File>)
    requires pos <= |tar| && tar[pos..] == Archive(w, fs) && rd(Zeros(BLOCK)) == Stop
    requires forall i :: 0 <= i < |fs| ==> Inverse(rd, w, fs[i])
    ensures Scan(rd, tar, pos) == Some(Expected(fs, pos))
    decreases |fs|
  {
    if fs == [] {
      assert Archive(w, fs) == Zeros(2 * BLOCK);
      NoMember(rd, tar, pos);
    } else {
      assert Inverse(rd, w, fs[0]);
      FirstMember(w, tar, pos, fs);
      ScanFinds(rd, w, tar, pos + Advance(|fs[0].data|), fs[1..]);
    }
  }

  /** Entry `e` of the reader's list leads to the bytes of `f`. */
  predicate Locates(tar: seq<byte>, e: Found, f: File) {
    && e.name == f.name && e.size == |f.data| && e.kind == ZERO
    && e.offset + e.size <= |tar| && tar[e.offset..e.offset + e.size] == f.data
  }

  lemma {:induction false} DataInPlace(w: Writer, tar: seq<byte>, pos: nat, fs: seq<File>, i: nat)
    requires pos <= |tar| && tar[pos..] == Archive(w, fs) && (forall k :: 0 <= k < |fs| ==> |w(fs[k])| == BLOCK)
    requires i < |fs|
    ensures i < |Expected(fs, pos)| && Locates(tar, Expected(fs, pos)[i], fs[i])
    decreases |fs|
  {
    FirstMember(w, tar, pos, fs);
    if i > 0 {
      DataInPlace(w, tar, pos + Advance(|fs[0].data|), fs[1..], i - 1);
    }
  }

  lemma {:induction false} ExpectedLength(fs: seq<File>, pos: nat)
    ensures |Expected(fs, pos)| == |fs|
    decreases |fs|
  {
    if fs != [] {
      ExpectedLength(fs[1..], pos + Advance(|fs[0].data|));
    }
  }

  predicate Sound(f: File) {
    |f.name| <= 99 && 0 !in f.name && |f.data| <= SIZE_LIMIT
  }

  lemma HeadersInvert(f: File)
    requires Sound(f)
    ensures Inverse(ReadHead, HeaderOf, f)
  {
    HeadReadsBack(f.name, |f.data|);
  }

  /** What is packed is found again: name, place and bytes of every file, and nothing else. */
  lemma ArchiveReadsBack(fs: seq<File>)
    requires forall i :: 0 <= i < |fs| ==> Sound(fs[i])
    ensures var tar, es := Archive(HeaderOf, fs), Expected(fs, 0);
            && Scan(ReadHead, tar, 0) == Some(es) && |es| == |fs|
            && forall i :: 0 <= i < |fs| ==> Locates(tar, es[i], fs[i])
  {
    var tar := Archive(HeaderOf, fs);
    assert tar[0..] == tar;
    forall i | 0 <= i < |fs| ensures Inverse(ReadHead, HeaderOf, fs[i]) {
      HeadersInvert(fs[i]);
    }
    ScanFinds(ReadHead, HeaderOf, tar, 0, fs);
    ExpectedLength(fs, 0);
    forall i | 0 <= i < |fs| ensures Locates(tar, Expected(fs, 0)[i], fs[i]) {
      DataInPlace(HeaderOf, tar, 0, fs, i);
    }
  }
}
