/** The boot image end to end: made by tools/mkinitrd.c, unpacked and loaded by initrd_init, read file by file. */
module InitrdImage {
  import opened Words
  import opened TarHeader
  import opened InitrdPaths
  import opened InitrdTree
  import opened Initrd
  import opened InitrdContents
  import TarArchive
  import Lz4Format
  import Lz4Decompress
  import Lz4Compress
  import Lz4Frame

  const LZ4B_MAGIC := 0x42345A4C

  // ---- Unpacking ----

  /** The decompressors return a signed length, and a negative one is a failure. */
  function Positive(r: Option<seq<byte>>): Option<seq<byte>> {
    if r.Some? && |r.value| < TWO_31 then r else None
  }

  /** A frame says how long its content is, or is taken to hold 4 MB. */
  function ContentSize(image: seq<byte>): nat
    requires |image| >= 10
  {
    if Lz4Frame.Flag(image[4] as int, 8) then Word(image, 6) else 4 * 1024 * 1024
  }

  /** The archive in an image: a frame, a block of the older kind, or the image itself. */
  function Unpacked(xxh: Lz4Frame.Checksum, image: seq<byte>): Option<seq<byte>> {
    if |image| < 4 then None
    else if Word(image, 0) == Lz4Frame.FRAME_MAGIC then
      if |image| < 10 then None else Positive(Lz4Frame.FrameDecode(xxh, image, ContentSize(image)))
    else if Word(image, 0) == LZ4B_MAGIC then
      if |image| < 12 || 12 + Word(image, 8) > |image| then None
      else
        var r := Positive(Lz4Format.DecodeBlock(image[12..12 + Word(image, 8)], Word(image, 4)));
        if r.Some? && |r.value| == Word(image, 4) then r else None
    else Some(image)
  }

  /** An image of the older kind: magic, size of the content, size of the block, block. */
  lemma OlderUnpacks(xxh: Lz4Frame.Checksum, image: seq<byte>, block: seq<byte>, tar: seq<byte>)
    requires |image| >= 12 && Word(image, 0) == LZ4B_MAGIC && Word(image, 4) == |tar| && Word(image, 8) == |block|
    requires |tar| < TWO_31 && 12 + |block| <= |image| && image[12..12 + |block|] == block
    requires Lz4Format.DecodeBlock(block, |tar|) == Some(tar)
    ensures Unpacked(xxh, image) == Some(tar)
  {
  }

  method Unpack(xxh: Lz4Frame.Checksum, image: seq<byte>) returns (r: Option<seq<byte>>)
    ensures r == Unpacked(xxh, image)
  {
    if |image| < 4 {
      return None;
    }
    if Word(image, 0) == Lz4Frame.FRAME_MAGIC {
      if |image| < 10 {
        return None;
      }
      var buf := new byte[ContentSize(image)];
      var ret := Lz4Frame.DecompressFrame(xxh, image, buf);
      if ret < 0 {
        return None;
      }
      return Some(buf[..ret]);
    }
    if Word(image, 0) == LZ4B_MAGIC {
      if |image| < 12 || 12 + Word(image, 8) > |image| {
        return None;
      }
      var buf := new byte[Word(image, 4)];
      var ret := Lz4Decompress.DecompressBlock(image[12..12 + Word(image, 8)], buf, 0, Word(image, 4));
      if ret < 0 || ret != Word(image, 4) {
        return None;
      }
      return Some(buf[..ret]);
    }
    return Some(image);
  }

  // ---- Making and loading an image ----

  /** Whatever is packed can be found again, by its path and byte for byte, and nothing else can. */
  ghost predicate Bootable(xxh: Lz4Frame.Checksum, image: seq<byte>, xs: seq<Item>) {
    && Unpacked(xxh, image).Some?
    && var tar := Unpacked(xxh, image).value;
    && TarArchive.Scan(ReadHead, tar, 0).Some?
    && forall q :: Faithful(tar, After(ROOT, TarArchive.Scan(ReadHead, tar, 0).value), xs, q)
  }

  lemma FrameUnpacks(xxh: Lz4Frame.Checksum, image: seq<byte>, tar: seq<byte>)
    requires |tar| < TWO_31 && Lz4Frame.FrameDecode(xxh, image, |tar|) == Some(tar)
    requires |image| >= 27 && Word(image, 0) == Lz4Frame.FRAME_MAGIC && image[4] == 0x6C && Word(image, 6) == |tar|
    ensures Unpacked(xxh, image) == Some(tar)
  {
    assert Lz4Frame.Flag(0x6C, 8);
  }

  lemma UnpacksAndLoads(xxh: Lz4Frame.Checksum, image: seq<byte>, xs: seq<Item>, tar: seq<byte>)
    requires forall i :: 0 <= i < |xs| ==> Packable(xs[i])
    requires tar == TarArchive.Archive(TarArchive.HeaderOf, FilesOf(xs)) && Unpacked(xxh, image) == Some(tar)
    ensures Bootable(xxh, image, xs)
  {
    ArchiveContents(xs, tar, []);
    forall q ensures Faithful(tar, After(ROOT, TarArchive.Scan(ReadHead, tar, 0).value), xs, q) {
      ArchiveContents(xs, tar, q);
    }
  }

  /** The archive of the items. */
  ghost function Packed(xs: seq<Item>): seq<byte>
    requires forall i :: 0 <= i < |xs| ==> Packable(xs[i])
  {
    TarArchive.Archive(TarArchive.HeaderOf, FilesOf(xs))
  }

  /** The kernel would take these bytes for something compressed. */
  predicate Disguised(tar: seq<byte>) {
    |tar| < 4 || Word(tar, 0) == Lz4Frame.FRAME_MAGIC || Word(tar, 0) == LZ4B_MAGIC
  }

  /** An archive that is too large for the compressor goes into the image as it is. */
  method BuildImage(xxh: Lz4Frame.Checksum, xs: seq<Item>) returns (image: seq<byte>)
    requires forall i :: 0 <= i < |xs| ==> Packable(xs[i])
    ensures |Packed(xs)| <= Lz4Compress.MAX_SOURCE || !Disguised(Packed(xs)) ==> Bootable(xxh, image, xs)
  {
    var tar := TarArchive.Pack(FilesOf(xs));
    image := Lz4Frame.WriteImage(xxh, tar);
    if |tar| <= Lz4Compress.MAX_SOURCE {
      FrameUnpacks(xxh, image, tar);
    }
    if |tar| <= Lz4Compress.MAX_SOURCE || !Disguised(tar) {
      UnpacksAndLoads(xxh, image, xs, tar);
    }
  }

  /** What the kernel does with an image at boot. */
  method Boot(xxh: Lz4Frame.Checksum, image: seq<byte>) returns (tar: seq<byte>, root: Table?)
    ensures root != null <==> Unpacked(xxh, image).Some? && TarArchive.Scan(ReadHead, Unpacked(xxh, image).value, 0).Some?
    ensures root != null ==> tar == Unpacked(xxh, image).value && root.Valid()
                             && root.m == After(ROOT, TarArchive.Scan(ReadHead, tar, 0).value)
  {
    var r := Unpack(xxh, image);
    if r.None? {
      return [], null;
    }
    tar := r.value;
    var t := new Table();
    var ok := t.Load(tar, ReadHead);
    root := if ok then t else null;
  }

  // ---- Finding a file ----

  lemma PrefixReaches(m: map<Path, Leaf>, q: Path, i: nat)
    requires Reachable(m, q) && i < |q|
    ensures q[..i] in m && m[q[..i]] == Dir && q[..i + 1] in m
  {
    if i + 1 < |q| {
      assert q[..i + 1] in m;
    } else {
      assert q[..i + 1] == q;
    }
  }

  /** From the root down; only directories can be searched. */
  method Walk(t: Table, q: Path) returns (node: int)
    requires t.Valid()
    ensures node == NONE <==> !Reachable(t.m, q)
    ensures node != NONE ==> 0 <= node < |t.es| && PathOf(t.es, node) == q && t.m[q] == Meaning(t.es[node])
  {
    node := 0;
    var i := 0;
    assert Entered(t.es, t.m, 0);
    while i < |q|
      invariant i <= |q| && 0 <= node < |t.es| && PathOf(t.es, node) == q[..i] && Entered(t.es, t.m, node)
      invariant forall k :: 0 <= k < i ==> q[..k] in t.m && t.m[q[..k]] == Dir
    {
      if t.es[node].isFile {
        assert t.m[q[..i]] != Dir;
        return NONE;
      }
      assert q[..i + 1] == q[..i] + [q[i]];
      var c := t.FindChild(node, q[i]);
      if c == NONE {
        if Reachable(t.m, q) {
          PrefixReaches(t.m, q, i);
        }
        return NONE;
      }
      node, i := c, i + 1;
      assert Entered(t.es, t.m, node);
    }
    assert q[..i] == q;
  }

  // ---- Reading a file ----

  /** How many bytes are handed out; the sum of offset and size is taken in 32 bits. */
  function ReadCount(length: nat, offset: nat, size: nat): (r: nat) {
    if offset > length then 0 else if (offset + size) % TWO_32 > length then length - offset else size
  }

  /** A read stays inside the file exactly as long as that sum does not come round to a small value. */
  lemma ReadStaysInside(length: nat, offset: nat, size: nat)
    requires length < TWO_32 && offset < TWO_32 && size < TWO_32 && offset <= length
    ensures offset + ReadCount(length, offset, size) <= length <==>
            offset + size < TWO_32 || offset + size - TWO_32 > length
  {
  }

  lemma InnerSlice(s: seq<byte>, a: nat, b: nat, x: nat, y: nat)
    requires a <= b <= |s| && x <= y <= b - a
    ensures s[a..b][x..y] == s[a + x..a + y]
  {
    var l, r := s[a..b][x..y], s[a + x..a + y];
    assert |l| == |r|;
    forall i | 0 <= i < |l| ensures l[i] == r[i] {
      assert l[i] == s[a..b][x + i] == s[a + (x + i)];
    }
  }

  /** The part of a file that a read of `size` bytes at `offset` asks for. */
  function Window(file: seq<byte>, offset: nat, size: nat): seq<byte> {
    if offset >= |file| then [] else if offset + size >= |file| then file[offset..] else file[offset..offset + size]
  }

  /** A read of `size` bytes at `offset` gives what the file has there. */
  method Read(t: Table, tar: seq<byte>, node: int, offset: nat, size: nat) returns (data: seq<byte>)
    requires 0 <= node < |t.es| && t.es[node].offset + t.es[node].length <= |tar| && t.es[node].length < TWO_32
    requires offset < TWO_32 && size < TWO_32
    requires offset <= t.es[node].length ==> offset + size < TWO_32 || offset + size - TWO_32 > t.es[node].length
    ensures data == if t.es[node].isFile
                    then Window(tar[t.es[node].offset..t.es[node].offset + t.es[node].length], offset, size) else []
  {
    var e := t.es[node];
    if !e.isFile {
      return [];
    }
    var n := ReadCount(e.length, offset, size);
    if n == 0 {
      return [];
    }
    ReadStaysInside(e.length, offset, size);
    data := tar[e.offset + offset..e.offset + offset + n];
    InnerSlice(tar, e.offset, e.offset + e.length, offset, offset + n);
  }

  /** What the kernel makes of a path once the image is loaded. */
  method Open(t: Table, tar: seq<byte>, ghost xs: seq<Item>, q: Path, offset: nat, size: nat) returns (r: Option<seq<byte>>)
    requires t.Valid() && Faithful(tar, t.m, xs, q) && offset + size < TWO_32
    requires forall i :: 0 <= i < |xs| ==> Packable(xs[i])
    ensures r.Some? <==> InitrdContents.Listed(xs, q) && Clear(xs, q)
    ensures r.Some? ==> r.value == Window(xs[Last(xs, q).value].data, offset, size)
  {
    var node := Walk(t, q);
    if node == NONE || !t.es[node].isFile {
      return None;
    }
    assert Stored(tar, t.m[q], xs[Last(xs, q).value].data);
    var data := Read(t, tar, node, offset, size);
    r := Some(data);
  }

  /** From packing to reading: the kernel finds what was packed, and reads the bytes that were packed. */
  method PackAndRead(xxh: Lz4Frame.Checksum, xs: seq<Item>, q: Path, offset: nat, size: nat)
    returns (r: Option<seq<byte>>)
    requires forall i :: 0 <= i < |xs| ==> Packable(xs[i])
    requires |Packed(xs)| <= Lz4Compress.MAX_SOURCE || !Disguised(Packed(xs))
    requires offset + size < TWO_32
    ensures r.Some? <==> InitrdContents.Listed(xs, q) && Clear(xs, q)
    ensures r.Some? ==> r.value == Window(xs[Last(xs, q).value].data, offset, size)
  {
    var image := BuildImage(xxh, xs);
    var tar, root := Boot(xxh, image);
    assert Faithful(tar, root.m, xs, q);
    r := Open(root, tar, xs, q, offset, size);
  }
}
