/** The LZ4 frame: written by tools/mkinitrd.c, read by src/kernel/lz4.c. */
module Lz4Frame {
  import opened Words
  import opened Lz4Format
  import opened Lz4Decompress
  import opened Lz4Compress

  const FRAME_MAGIC := 0x184D2204

  /** The 32-bit checksum both sides use; nothing is assumed of it. */
  type Checksum = seq<byte> -> word

  function HeaderByte(xxh: Checksum, desc: seq<byte>): byte {
    (xxh(desc) / 0x100 % 0x100) as byte
  }

  // ---- Writing ----

  /** FLG 0x6C: version 1, independent blocks, content size and content checksum present; BD 0x70. */
  function Descriptor(n: word): (r: seq<byte>)
    ensures |r| == 10
  {
    [0x6C, 0x70] + Le32(n) + Le32(0)
  }

  function Preamble(xxh: Checksum, n: word): (r: seq<byte>)
    ensures |r| == 15
  {
    Le32(FRAME_MAGIC) + Descriptor(n) + [HeaderByte(xxh, Descriptor(n))]
  }

  function Trailer(xxh: Checksum, data: seq<byte>): (r: seq<byte>)
    ensures |r| == 8
  {
    Le32(0) + Le32(xxh(data))
  }

  function FrameBytes(xxh: Checksum, data: seq<byte>, comp: seq<byte>): (r: seq<byte>)
    requires |data| < TWO_32 && |comp| < TWO_32
    ensures |r| == 27 + |comp|
  {
    Preamble(xxh, |data|) + (Le32(|comp|) + (comp + Trailer(xxh, data)))
  }

  // ---- Reading ----

  predicate Flag(flg: int, weight: nat)
    requires weight > 0
  {
    flg / weight % 2 == 1
  }

  /** Where the data blocks start, and the declared content size if there is one. */
  datatype Header = Header(ip: nat, flg: int, contentSize: nat)

  function ReadHeader(xxh: Checksum, src: seq<byte>): (r: Option<Header>)
    ensures r.Some? ==> r.value.ip <= |src|
  {
    if |src| < 7 || Word(src, 0) != FRAME_MAGIC then None else
    var flg := src[4] as int;
    if flg / 64 != 1 || !Flag(flg, 32) then None else
    var sized := Flag(flg, 8);
    if sized && 6 + 8 > |src| then None else
    var size: nat := if sized then Word(src, 6) + TWO_32 * Word(src, 10) else 0;
    var p := if sized then 14 else 6;
    if Flag(flg, 1) && p + 4 > |src| then None else
    var q := if Flag(flg, 1) then p + 4 else p;
    if q + 1 > |src| || src[q] != HeaderByte(xxh, src[4..q]) then None else
    Some(Header(q + 1, flg, size))
  }

  datatype Body = Body(out: seq<byte>, ip: nat)

  /** A block-size field: the end mark, or a block that ends at `end` and is stored as is if `plain`. */
  datatype Field = Missing | EndMark | Block(plain: bool, end: nat)

  function ReadField(src: seq<byte>, ip: nat): (r: Field)
    ensures !r.Missing? ==> ip + 4 <= |src|
    ensures r.Block? ==> ip + 4 <= r.end <= |src|
  {
    if ip + 4 > |src| then Missing else
    var field := Word(src, ip);
    if field == 0 then EndMark else
    var e := ip + 4 + field % TWO_31;
    if e > |src| then Missing else Block(field >= TWO_31, e)
  }

  /** The decoded content of one data block. */
  function BlockContent(data: seq<byte>, plain: bool, room: nat): (r: Option<seq<byte>>)
    ensures r.Some? ==> |r.value| <= room
  {
    if plain then
      if |data| > room then None else Some(data)
    else
      match DecodeBlock(data, room)
      case None => None
      case Some(out) => if |out| > room || |out| >= TWO_31 then None else Some(out)
  }

  function ReadBlocks(src: seq<byte>, ip: nat, out: seq<byte>, cap: nat, summed: bool): (r: Option<Body>)
    requires ip <= |src| && |out| <= cap
    ensures r.Some? ==> ip <= r.value.ip <= |src| && |r.value.out| <= cap
    decreases |src| - ip
  {
    match ReadField(src, ip)
    case Missing => None
    case EndMark => Some(Body(out, ip + 4))
    case Block(plain, e) =>
      match BlockContent(src[ip + 4..e], plain, cap - |out|)
      case None => None
      case Some(more) =>
        if summed && e + 4 > |src| then None
        else ReadBlocks(src, if summed then e + 4 else e, out + more, cap, summed)
  }

  function FrameDecode(xxh: Checksum, src: seq<byte>, cap: nat): Option<seq<byte>> {
    match ReadHeader(xxh, src)
    case None => None
    case Some(h) =>
      match ReadBlocks(src, h.ip, [], cap, Flag(h.flg, 16))
      case None => None
      case Some(b) =>
        if Flag(h.flg, 4) && (b.ip + 4 > |src| || Word(src, b.ip) != xxh(b.out)) then None
        else if Flag(h.flg, 8) && |b.out| != h.contentSize then None
        else Some(b.out)
  }

  /** A frame that is accepted has passed every test: version, header, length and checksum of the content. */
  lemma AcceptedFrame(xxh: Checksum, src: seq<byte>, cap: nat, out: seq<byte>)
    requires FrameDecode(xxh, src, cap) == Some(out)
    ensures |src| >= 7 && Word(src, 0) == FRAME_MAGIC && src[4] as int / 64 == 1 && Flag(src[4] as int, 32)
    ensures Flag(src[4] as int, 8) ==> |src| >= 14 && |out| == Word(src, 6) + TWO_32 * Word(src, 10)
    ensures Flag(src[4] as int, 4) ==> exists ip: nat :: ip + 4 <= |src| && Word(src, ip) == xxh(out)
    ensures exists ip: nat :: 6 <= ip < |src| && src[ip] == HeaderByte(xxh, src[4..ip])
  {
    var h := ReadHeader(xxh, src).value;
    var b := ReadBlocks(src, h.ip, [], cap, Flag(h.flg, 16)).value;
    assert src[h.ip - 1] == HeaderByte(xxh, src[4..h.ip - 1]);
    assert Flag(h.flg, 4) ==> Word(src, b.ip) == xxh(out);
  }

  // ---- The two ends meet ----

  lemma ReadsPreamble(xxh: Checksum, src: seq<byte>, n: word)
    requires Has(src, 0, Preamble(xxh, n))
    ensures ReadHeader(xxh, src) == Some(Header(15, 0x6C, n))
  {
    var d := Descriptor(n);
    HasBoth(src, 0, Le32(FRAME_MAGIC) + d, [HeaderByte(xxh, d)]);
    HasBoth(src, 0, Le32(FRAME_MAGIC), d);
    WordOfLe32(src, 0, FRAME_MAGIC);
    HasSlice(src, 4, d);
    HasBoth(src, 4, [0x6C, 0x70] + Le32(n), Le32(0));
    HasBoth(src, 4, [0x6C, 0x70], Le32(n));
    WordOfLe32(src, 6, n);
    WordOfLe32(src, 10, 0);
    assert src[4 + 0] == [0x6C as byte, 0x70][0];
    assert src[14 + 0] == [HeaderByte(xxh, d)][0];
  }

  lemma ReadsEndMark(src: seq<byte>, ip: nat)
    requires Has(src, ip, Le32(0))
    ensures ReadField(src, ip) == EndMark
  {
    WordOfLe32(src, ip, 0);
  }

  lemma ReadsBlockField(src: seq<byte>, ip: nat, n: nat)
    requires 0 < n < TWO_31 && Has(src, ip, Le32(n)) && ip + 4 + n <= |src|
    ensures ReadField(src, ip) == Block(false, ip + 4 + n)
  {
    WordOfLe32(src, ip, n);
  }

  lemma ReadsContent(comp: seq<byte>, data: seq<byte>, cap: nat)
    requires |data| < TWO_31 && |data| <= cap && DecodeBlock(comp, cap) == Some(data)
    ensures BlockContent(comp, false, cap) == Some(data)
  {
  }

  /** One compressed block and the end mark. */
  lemma ReadsOneBlock(src: seq<byte>, ip: nat, e: nat, data: seq<byte>, cap: nat)
    requires ip <= |src| && e <= |src| && |data| <= cap
    requires ReadField(src, ip) == Block(false, e) && BlockContent(src[ip + 4..e], false, cap) == Some(data)
    requires ReadField(src, e) == EndMark
    ensures ReadBlocks(src, ip, [], cap, false) == Some(Body(data, e + 4))
  {
    assert [] + data == data;
    BlocksOnward(src, ip, [], cap, false, data, e);
  }

  lemma ReadsBody(src: seq<byte>, ip: nat, comp: seq<byte>, data: seq<byte>, cap: nat)
    requires 0 < |comp| < TWO_31 && |data| <= cap && BlockContent(comp, false, cap) == Some(data)
    requires Has(src, ip, Le32(|comp|)) && Has(src, ip + 4, comp) && Has(src, ip + 4 + |comp|, Le32(0))
    ensures ReadBlocks(src, ip, [], cap, false) == Some(Body(data, ip + 8 + |comp|))
  {
    ReadsBlockField(src, ip, |comp|);
    HasSlice(src, ip + 4, comp);
    ReadsEndMark(src, ip + 4 + |comp|);
    ReadsOneBlock(src, ip, ip + 4 + |comp|, data, cap);
  }

  lemma BlocksOnward(src: seq<byte>, ip: nat, out: seq<byte>, cap: nat, summed: bool, more: seq<byte>, next: nat)
    requires ip <= |src| && |out| <= cap && next <= |src|
    requires var f := ReadField(src, ip);
             && f.Block? && next == (if summed then f.end + 4 else f.end)
             && BlockContent(src[ip + 4..f.end], f.plain, cap - |out|) == Some(more)
    ensures ReadBlocks(src, ip, out, cap, summed) == ReadBlocks(src, next, out + more, cap, summed)
  {
  }

  lemma BlocksFail(src: seq<byte>, ip: nat, out: seq<byte>, cap: nat, summed: bool)
    requires ip <= |src| && |out| <= cap
    requires var f := ReadField(src, ip);
             f.Block? && (BlockContent(src[ip + 4..f.end], f.plain, cap - |out|).None? || (summed && f.end + 4 > |src|))
    ensures ReadBlocks(src, ip, out, cap, summed) == None
  {
  }

  /** `src` is a frame laid out as the host writes it. */
  ghost predicate Framed(xxh: Checksum, src: seq<byte>, data: seq<byte>, comp: seq<byte>)
    requires |data| < TWO_32 && |comp| < TWO_32
  {
    && Has(src, 0, Preamble(xxh, |data|)) && Has(src, 15, Le32(|comp|)) && Has(src, 19, comp)
    && Has(src, 19 + |comp|, Le32(0)) && Has(src, 23 + |comp|, Le32(xxh(data)))
  }

  lemma FrameParts(xxh: Checksum, data: seq<byte>, comp: seq<byte>)
    requires |data| < TWO_32 && |comp| < TWO_32
    ensures Framed(xxh, FrameBytes(xxh, data, comp), data, comp)
  {
    var src := FrameBytes(xxh, data, comp);
    var t := Trailer(xxh, data);
    HasBoth(src, 0, Preamble(xxh, |data|), Le32(|comp|) + (comp + t));
    HasBoth(src, 15, Le32(|comp|), comp + t);
    HasBoth(src, 19, comp, t);
    HasBoth(src, 19 + |comp|, Le32(0), Le32(xxh(data)));
  }

  lemma DecodesTo(xxh: Checksum, src: seq<byte>, cap: nat, out: seq<byte>, start: nat, end: nat, flg: nat)
    requires !Flag(flg, 16) && ReadHeader(xxh, src) == Some(Header(start, flg, |out|))
    requires ReadBlocks(src, start, [], cap, false) == Some(Body(out, end))
    requires end + 4 <= |src| && Word(src, end) == xxh(out)
    ensures FrameDecode(xxh, src, cap) == Some(out)
  {
  }

  lemma ReadsContentBody(xxh: Checksum, src: seq<byte>, data: seq<byte>, comp: seq<byte>, cap: nat)
    requires 0 < |comp| < TWO_31 && |data| < TWO_31 && |data| <= cap && DecodeBlock(comp, cap) == Some(data)
    requires Framed(xxh, src, data, comp)
    ensures ReadBlocks(src, 15, [], cap, false) == Some(Body(data, 23 + |comp|))
  {
    ReadsContent(comp, data, cap);
    ReadsBody(src, 15, comp, data, cap);
  }

  lemma FramedEnds(xxh: Checksum, src: seq<byte>, data: seq<byte>, comp: seq<byte>)
    requires |data| < TWO_31 && |comp| < TWO_31 && Framed(xxh, src, data, comp)
    ensures ReadHeader(xxh, src) == Some(Header(15, 0x6C, |data|)) && !Flag(0x6C, 16)
    ensures 27 + |comp| <= |src| && Word(src, 23 + |comp|) == xxh(data)
  {
    ReadsPreamble(xxh, src, |data|);
    WordOfLe32(src, 23 + |comp|, xxh(data));
  }

  /** Any frame around a block that decodes to `data` is read back as `data`, checksums included. */
  lemma FrameReadsBack(xxh: Checksum, src: seq<byte>, data: seq<byte>, comp: seq<byte>, cap: nat)
    requires 0 < |comp| < TWO_31 && |data| < TWO_31 && |data| <= cap && DecodeBlock(comp, cap) == Some(data)
    requires Framed(xxh, src, data, comp)
    ensures FrameDecode(xxh, src, cap) == Some(data)
  {
    FramedEnds(xxh, src, data, comp);
    ReadsContentBody(xxh, src, data, comp, cap);
    DecodesTo(xxh, src, cap, data, 15, 23 + |comp|, 0x6C);
  }

  /** What the compressor produces, the block decompressor turns back into exactly the source. */
  lemma BlockRoundTrip(src: seq<byte>, out: seq<byte>, qs: seq<Sequence>, lit: seq<byte>, cap: nat)
    requires Compressed(src, out, qs, lit) && |src| <= cap
    ensures DecodeBlock(out, cap) == Some(src)
  {
    DecodeInvertsEncode(qs, lit, cap);
  }

  lemma BlocksStop(src: seq<byte>, ip: nat, out: seq<byte>, cap: nat, summed: bool)
    requires ip <= |src| && |out| <= cap
    ensures ReadField(src, ip).Missing? ==> ReadBlocks(src, ip, out, cap, summed) == None
    ensures ReadField(src, ip).EndMark? ==> ip + 4 <= |src| && ReadBlocks(src, ip, out, cap, summed) == Some(Body(out, ip + 4))
  {
  }

  // ---- The code ----

  /** Decode one data block to `dst[total..]`. */
  method BlockStep(data: seq<byte>, plain: bool, dst: array<byte>, total: nat) returns (ok: bool, n: nat)
    requires total <= dst.Length < TWO_32
    modifies dst
    ensures dst[..total] == old(dst[..total])
    ensures total + n <= dst.Length
    ensures BlockContent(data, plain, dst.Length - total) == if ok then Some(dst[total..total + n]) else None
  {
    if plain {
      if total + |data| > dst.Length {
        return false, 0;
      }
      CopyLiterals(data, 0, dst, total, |data|);
      assert data[0..|data|] == data;
      return true, |data|;
    }
    var ret := DecompressBlock(data, dst, total, dst.Length - total);
    if ret < 0 {
      return false, 0;
    }
    return true, ret;
  }

  /** What one turn of the data-block loop makes of the rest. */
  ghost predicate Turned(
    src: seq<byte>, start: nat, out: seq<byte>, cap: nat, summed: bool, r: Progress, out': seq<byte>, ip: nat)
    requires start <= |src| && |out| <= cap && ip <= |src| && |out'| <= cap
  {
    ReadBlocks(src, start, out, cap, summed) ==
    match r
    case Failed => None
    case Ended => Some(Body(out', ip))
    case Onward => ReadBlocks(src, ip, out', cap, summed)
  }

  lemma TurnOnward(
    src: seq<byte>, start: nat, out: seq<byte>, cap: nat, summed: bool, more: seq<byte>, out': seq<byte>, next: nat)
    requires start <= |src| && |out| <= cap && next <= |src| && out' == out + more && |out'| <= cap
    requires var f := ReadField(src, start);
             && f.Block? && next == (if summed then f.end + 4 else f.end)
             && BlockContent(src[start + 4..f.end], f.plain, cap - |out|) == Some(more)
    ensures Turned(src, start, out, cap, summed, Onward, out', next)
  {
    BlocksOnward(src, start, out, cap, summed, more, next);
  }

  /** A turn at a data block that ends at `e`. */
  method BlockTaken(src: seq<byte>, start: nat, plain: bool, e: nat, dst: array<byte>, from: nat, summed: bool)
    returns (r: Progress, total: nat, ip: nat)
    requires start <= |src| && from <= dst.Length < TWO_32 && ReadField(src, start) == Block(plain, e)
    modifies dst
    ensures total <= dst.Length && start <= ip <= |src| && (r.Onward? ==> start < ip)
    ensures Turned(src, start, old(dst[..from]), dst.Length, summed, r, dst[..total], ip)
  {
    ghost var out := dst[..from];
    var good, n := BlockStep(src[start + 4..e], plain, dst, from);
    if !good || (summed && e + 4 > |src|) {
      BlocksFail(src, start, out, dst.Length, summed);
      return Failed, from, start;
    }
    ip := if summed then e + 4 else e;
    assert dst[..from + n] == out + dst[from..from + n];
    TurnOnward(src, start, out, dst.Length, summed, dst[from..from + n], dst[..from + n], ip);
    return Onward, from + n, ip;
  }

  /** One turn of the data-block loop. */
  method BlockTurn(src: seq<byte>, start: nat, dst: array<byte>, from: nat, summed: bool)
    returns (r: Progress, total: nat, ip: nat)
    requires start <= |src| && from <= dst.Length < TWO_32
    modifies dst
    ensures total <= dst.Length && start <= ip <= |src| && (r.Onward? ==> start < ip)
    ensures Turned(src, start, old(dst[..from]), dst.Length, summed, r, dst[..total], ip)
  {
    var field := ReadField(src, start);
    BlocksStop(src, start, dst[..from], dst.Length, summed);
    if field.Missing? {
      return Failed, from, start;
    }
    if field.EndMark? {
      return Ended, from, start + 4;
    }
    r, total, ip := BlockTaken(src, start, field.plain, field.end, dst, from, summed);
  }

  method DecompressBlocks(src: seq<byte>, start: nat, dst: array<byte>, summed: bool) returns (ok: bool, total: nat, ip: nat)
    requires start <= |src| && dst.Length < TWO_32
    modifies dst
    ensures total <= dst.Length && ip <= |src|
    ensures ReadBlocks(src, start, [], dst.Length, summed) == if ok then Some(Body(dst[..total], ip)) else None
  {
    total, ip := 0, start;
    assert dst[..0] == [];
    while true
      invariant start <= ip <= |src| && total <= dst.Length
      invariant ReadBlocks(src, start, [], dst.Length, summed) == ReadBlocks(src, ip, dst[..total], dst.Length, summed)
      decreases |src| - ip
    {
      var r;
      r, total, ip := BlockTurn(src, ip, dst, total, summed);
      if r.Failed? {
        return false, total, ip;
      }
      if r.Ended? {
        return true, total, ip;
      }
    }
  }

  /** `lz4_decompress_frame`, with `dst.Length` for `dst_cap`; any input, well formed or not. */
  method DecompressFrame(xxh: Checksum, src: seq<byte>, dst: array<byte>) returns (ret: int)
    requires dst.Length < TWO_32
    modifies dst
    ensures match FrameDecode(xxh, src, dst.Length)
            case None => ret == -1
            case Some(out) => |out| <= dst.Length && ret == ToInt32(|out|) && dst[..|out|] == out
  {
    if |src| < 7 || Word(src, 0) != FRAME_MAGIC {
      return -1;
    }
    var flg := src[4] as int;
    if flg / 64 != 1 || !Flag(flg, 32) {
      return -1;
    }
    var ip, contentSize := 6, 0;
    if Flag(flg, 8) {
      if ip + 8 > |src| {
        return -1;
      }
      contentSize := Word(src, 6) + TWO_32 * Word(src, 10);
      ip := ip + 8;
    }
    if Flag(flg, 1) {
      if ip + 4 > |src| {
        return -1;
      }
      ip := ip + 4;
    }
    if ip + 1 > |src| || src[ip] != HeaderByte(xxh, src[4..ip]) {
      return -1;
    }
    ip := ip + 1;
    assert ReadHeader(xxh, src) == Some(Header(ip, flg, contentSize));
    var ok, total, e := DecompressBlocks(src, ip, dst, Flag(flg, 16));
    if !ok {
      return -1;
    }
    if Flag(flg, 4) {
      if e + 4 > |src| || Word(src, e) != xxh(dst[..total]) {
        return -1;
      }
    }
    if Flag(flg, 8) && total != contentSize {
      return -1;
    }
    return ToInt32(total);
  }

  /**
   * The second half of mkinitrd's `main`: compress the archive and wrap it in a frame. The archive is not
   * empty, so for every admissible size the kernel reads back exactly what was wrapped.
   */
  method WriteImage(xxh: Checksum, tar: seq<byte>) returns (image: seq<byte>)
    ensures 1 <= |tar| <= MAX_SOURCE ==> FrameDecode(xxh, image, |tar|) == Some(tar)
    ensures 1 <= |tar| <= MAX_SOURCE ==>
              |image| >= 27 && Word(image, 0) == FRAME_MAGIC && image[4] == 0x6C && Word(image, 6) == |tar|
    ensures |tar| == 0 || |tar| > MAX_SOURCE ==> image == tar
  {
    var comp := new byte[Bound(|tar|)];
    var size, qs, lit := CompressBlock(tar, comp);
    if size == 0 {
      return tar;
    }
    SizeFieldIsPlain(|tar|, size);
    BlockRoundTrip(tar, comp[..size], qs, lit, |tar|);
    image := Wrap(xxh, tar, comp[..size]);
    FrameReadsBack(xxh, image, tar, comp[..size], |tar|);
    ImageHead(xxh, image, tar, comp[..size]);
  }

  /** The writes of the frame parts, in order. */
  method Wrap(xxh: Checksum, data: seq<byte>, comp: seq<byte>) returns (image: seq<byte>)
    requires |data| < TWO_32 && |comp| < TWO_32
    ensures Framed(xxh, image, data, comp) && |image| == 27 + |comp|
  {
    image := FrameBytes(xxh, data, comp);
    FrameParts(xxh, data, comp);
  }

  lemma ImageHead(xxh: Checksum, src: seq<byte>, data: seq<byte>, comp: seq<byte>)
    requires |data| < TWO_32 && |comp| < TWO_32 && Framed(xxh, src, data, comp)
    ensures Word(src, 0) == FRAME_MAGIC && src[4] == 0x6C && Word(src, 6) == |data|
  {
    var d := Descriptor(|data|);
    HasBoth(src, 0, Le32(FRAME_MAGIC) + d, [HeaderByte(xxh, d)]);
    HasBoth(src, 0, Le32(FRAME_MAGIC), d);
    WordOfLe32(src, 0, FRAME_MAGIC);
    HasBoth(src, 4, [0x6C, 0x70] + Le32(|data|), Le32(0));
    HasBoth(src, 4, [0x6C, 0x70], Le32(|data|));
    WordOfLe32(src, 6, |data|);
    assert src[4 + 0] == [0x6C as byte, 0x70][0];
  }
}
