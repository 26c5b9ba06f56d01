/** The host's LZ4 block compressor, tools/mkinitrd.c: greedy matching through a hash table. */
module Lz4Compress {
  import opened Seqs
  import opened Words
  import opened Lz4Format

  const HASH_SIZE := 65536
  const LAST_LITERALS := 5
  const MFLIMIT := 12
  const MAX_SOURCE := 0x7E000000

  /** Hash of the four bytes at `i`, read as a little-endian word. */
  function Hash4(src: seq<byte>, i: nat): (h: nat)
    requires i + 4 <= |src|
    ensures h < HASH_SIZE
  {
    var v := src[i] as int + 0x100 * src[i + 1] as int + 0x10000 * src[i + 2] as int + 0x1000000 * src[i + 3] as int;
    ((v * 2654435761) % 0x1_0000_0000) / 65536
  }

  /** Output space that always suffices for `n` bytes. */
  function Bound(n: nat): nat {
    n + n / 255 + 16
  }

  // ---- Sizes ----

  /** The compressor's own estimate of the bytes a token, its lengths and its literals take. */
  function LiteralsNeed(litLen: nat): nat {
    1 + (if litLen >= 15 then 1 + litLen / 255 else 0) + litLen
  }

  function MatchNeed(more: nat): nat {
    2 + (if more >= 15 then 1 + (more - 15) / 255 else 0)
  }

  lemma {:induction false} ExtensionSize(n: nat)
    ensures |Extension(n)| == 1 + n / 255
  {
    if n >= 255 {
      ExtensionSize(n - 255);
    }
  }

  lemma LiteralsFit(lit: seq<byte>, low: nat)
    requires low <= 15
    ensures |EncodeLiterals(lit, low)| <= LiteralsNeed(|lit|)
  {
    if |lit| >= 15 {
      ExtensionSize(|lit| - 15);
    }
  }

  lemma MatchFits(offset: nat, more: nat)
    requires offset <= MAX_OFFSET
    ensures |EncodeMatch(offset, more)| == MatchNeed(more)
  {
    if more >= 15 {
      ExtensionSize(more - 15);
    }
  }

  /** A sequence never takes more room than its share of the bound. */
  lemma SequencePays(a: nat, litLen: nat, more: nat, op: nat)
    requires op <= a + a / 255
    ensures var b := a + litLen + more + MIN_MATCH;
            op + LiteralsNeed(litLen) + MatchNeed(more) <= b + b / 255
  {
  }

  lemma LastPays(a: nat, litLen: nat, op: nat)
    requires op <= a + a / 255
    ensures op + LiteralsNeed(litLen) <= Bound(a + litLen)
  {
  }

  // ---- Emitting ----

  method EmitExtra(dst: array<byte>, start: nat, n: nat) returns (op: nat)
    requires start + |Extension(n)| <= dst.Length
    modifies dst
    ensures op == start + |Extension(n)| && dst[..op] == old(dst[..start]) + Extension(n)
  {
    var rem := n;
    op := start;
    ghost var goal := dst[..start] + Extension(n);
    while rem >= 255
      invariant start <= op && op + |Extension(rem)| == start + |Extension(n)|
      invariant dst[..op] + Extension(rem) == goal
    {
      dst[op] := 255;
      op := op + 1;
      rem := rem - 255;
    }
    dst[op] := rem as byte;
    op := op + 1;
  }

  method EmitLength(dst: array<byte>, start: nat, n: nat) returns (op: nat)
    requires start + |LengthBytes(n)| <= dst.Length
    modifies dst
    ensures op == start + |LengthBytes(n)| && dst[..op] == old(dst[..start]) + LengthBytes(n)
  {
    op := start;
    if n >= 15 {
      op := EmitExtra(dst, op, n - 15);
    }
  }

  method EmitBytes(dst: array<byte>, start: nat, bytes: seq<byte>) returns (op: nat)
    requires start + |bytes| <= dst.Length
    modifies dst
    ensures op == start + |bytes| && dst[..op] == old(dst[..start]) + bytes
  {
    ghost var pre := dst[..start];
    op := start;
    while op < start + |bytes|
      invariant start <= op <= start + |bytes|
      invariant dst[..op] == pre + bytes[..op - start]
    {
      dst[op] := bytes[op - start];
      op := op + 1;
    }
  }

  method EmitLiterals(dst: array<byte>, start: nat, lit: seq<byte>, low: nat) returns (op: nat)
    requires low <= 15 && start + |EncodeLiterals(lit, low)| <= dst.Length
    modifies dst
    ensures op == start + |EncodeLiterals(lit, low)| && dst[..op] == old(dst[..start]) + EncodeLiterals(lit, low)
  {
    var t := [Token(|lit|, low)];
    op := EmitBytes(dst, start, t);
    op := EmitLength(dst, op, |lit|);
    op := EmitBytes(dst, op, lit);
    Assoc(old(dst[..start]), t, LengthBytes(|lit|));
    Assoc(old(dst[..start]), t + LengthBytes(|lit|), lit);
  }

  method EmitMatch(dst: array<byte>, start: nat, offset: nat, more: nat) returns (op: nat)
    requires offset <= MAX_OFFSET && start + |EncodeMatch(offset, more)| <= dst.Length
    modifies dst
    ensures op == start + |EncodeMatch(offset, more)| && dst[..op] == old(dst[..start]) + EncodeMatch(offset, more)
  {
    op := EmitBytes(dst, start, OffsetBytes(offset));
    op := EmitLength(dst, op, more);
    Assoc(old(dst[..start]), OffsetBytes(offset), LengthBytes(more));
  }

  // ---- Matching ----

  /** No match of more than `n` bytes leaves the last literals alone. */
  ghost predicate Longest(src: seq<byte>, ip: nat, offset: nat, n: nat) {
    forall m :: n < m <= |src| - LAST_LITERALS - ip ==> !Repeats(src, ip, offset, m)
  }

  /** Lengthen a four-byte match while it goes on, but not into the last literals. */
  method ExtendMatch(src: seq<byte>, ip: nat, ref: nat) returns (more: nat)
    requires ref < ip && ip + MIN_MATCH + LAST_LITERALS <= |src|
    requires Repeats(src, ip, ip - ref, MIN_MATCH)
    ensures Repeats(src, ip, ip - ref, more + MIN_MATCH)
    ensures ip + more + MIN_MATCH <= |src| - LAST_LITERALS
    ensures Longest(src, ip, ip - ref, more + MIN_MATCH)
  {
    more := 0;
    while ip + MIN_MATCH + more < |src| - LAST_LITERALS && src[ip + MIN_MATCH + more] == src[ref + MIN_MATCH + more]
      invariant Repeats(src, ip, ip - ref, more + MIN_MATCH)
      invariant ip + more + MIN_MATCH <= |src| - LAST_LITERALS
    {
      more := more + 1;
    }
  }

  lemma SameFour(src: seq<byte>, ip: nat, ref: nat)
    requires ref < ip && ip + MIN_MATCH <= |src| && src[ip..ip + MIN_MATCH] == src[ref..ref + MIN_MATCH]
    ensures Repeats(src, ip, ip - ref, MIN_MATCH)
  {
    forall i | ip <= i < ip + MIN_MATCH ensures src[i] == src[i - (ip - ref)] {
      assert src[ip..ip + MIN_MATCH][i - ip] == src[ref..ref + MIN_MATCH][i - ip];
    }
  }

  // ---- What has been written so far ----

  /** `out` encodes `qs`, which replay to the first `anchor` bytes of `src`. */
  ghost predicate Written(src: seq<byte>, anchor: nat, out: seq<byte>, qs: seq<Sequence>) {
    && anchor <= |src| && AllValid([], qs) && Writable(qs)
    && out == EncodeAll(qs) && ReplayAll([], qs) == src[..anchor]
  }

  /** The last match leaves at least the last five bytes as literals and starts more than twelve from the end. */
  ghost predicate EndRules(qs: seq<Sequence>, anchor: int, n: int) {
    qs != [] ==>
      && anchor <= n - LAST_LITERALS
      && anchor - (qs[|qs| - 1].more + MIN_MATCH) < n - MFLIMIT
  }

  lemma WriteSequence(src: seq<byte>, anchor: nat, out: seq<byte>, qs: seq<Sequence>, ip: nat, offset: nat, more: nat)
    requires Written(src, anchor, out, qs) && anchor <= ip && 1 <= offset <= MAX_OFFSET
    requires Repeats(src, ip, offset, more + MIN_MATCH)
    ensures var q := Sequence(src[anchor..ip], offset, more);
            Written(src, ip + more + MIN_MATCH, out + EncodeSequence(q), qs + [q])
  {
    var q := Sequence(src[anchor..ip], offset, more);
    AppendEncoding(qs, q);
    AppendValid([], qs, q);
    assert src[..anchor] + src[anchor..ip] == src[..ip];
    CopyReproduces(src, ip, offset, more + MIN_MATCH);
  }

  /** Check the room, then write one sequence. */
  method EmitSequence(src: seq<byte>, anchor: nat, ip: nat, offset: nat, more: nat, dst: array<byte>, start: nat)
    returns (ok: bool, op: nat)
    requires anchor <= ip <= |src| && offset <= MAX_OFFSET && start <= dst.Length
    modifies dst
    ensures ok <==> start + LiteralsNeed(ip - anchor) + MatchNeed(more) <= dst.Length
    ensures ok ==> start <= op <= start + LiteralsNeed(ip - anchor) + MatchNeed(more)
    ensures ok ==> dst[..op] == old(dst[..start]) + EncodeSequence(Sequence(src[anchor..ip], offset, more))
  {
    op := start;
    if start + LiteralsNeed(ip - anchor) + MatchNeed(more) > dst.Length {
      return false, op;
    }
    var lit := src[anchor..ip];
    LiteralsFit(lit, Nibble(more));
    MatchFits(offset, more);
    op := EmitLiterals(dst, op, lit, Nibble(more));
    op := EmitMatch(dst, op, offset, more);
    Assoc(old(dst[..start]), EncodeLiterals(lit, Nibble(more)), EncodeMatch(offset, more));
    ok := true;
  }

  /** `out` is an LZ4 block for `src` that keeps the end-of-block restrictions. */
  ghost predicate Compressed(src: seq<byte>, out: seq<byte>, qs: seq<Sequence>, lit: seq<byte>) {
    && AllValid([], qs) && Writable(qs)
    && out == EncodeBlock(qs, lit) && ReplayAll([], qs) + lit == src
    && EndRules(qs, |src| - |lit|, |src|)
  }

  /** Everything known between two turns of the matching loop. */
  ghost predicate Ongoing(src: seq<byte>, anchor: nat, out: seq<byte>, qs: seq<Sequence>) {
    Written(src, anchor, out, qs) && EndRules(qs, anchor, |src|) && |out| <= anchor + anchor / 255
  }

  /** A match was found at `ref`: extend it and write the sequence that ends with it. */
  method TakeMatch(src: seq<byte>, anchor: nat, ip: nat, ref: nat, dst: array<byte>, start: nat, ghost qs: seq<Sequence>)
    returns (ok: bool, next: nat, op: nat, ghost rs: seq<Sequence>)
    requires anchor <= ip < |src| - MFLIMIT && ref < ip && ip - ref <= MAX_OFFSET && start <= dst.Length
    requires src[ip..ip + MIN_MATCH] == src[ref..ref + MIN_MATCH]
    requires Ongoing(src, anchor, dst[..start], qs)
    modifies dst
    ensures !ok ==> dst.Length < Bound(|src|)
    ensures ok ==> ip < next <= |src| && op <= dst.Length && Ongoing(src, next, dst[..op], rs)
  {
    SameFour(src, ip, ref);
    var more := ExtendMatch(src, ip, ref);
    next := ip + more + MIN_MATCH;
    SequencePays(anchor, ip - anchor, more, start);
    BoundGrows(next, |src|);
    WriteSequence(src, anchor, dst[..start], qs, ip, ip - ref, more);
    ok, op := EmitSequence(src, anchor, ip, ip - ref, more, dst, start);
    rs := qs + [Sequence(src[anchor..ip], ip - ref, more)];
  }

  /** Write what is left as literals. */
  method Finish(src: seq<byte>, anchor: nat, dst: array<byte>, start: nat, ghost qs: seq<Sequence>)
    returns (ok: bool, size: nat)
    requires start <= dst.Length && Ongoing(src, anchor, dst[..start], qs)
    modifies dst
    ensures !ok ==> dst.Length < Bound(|src|)
    ensures ok ==> 0 < size <= dst.Length && size <= Bound(|src|)
    ensures ok ==> Compressed(src, dst[..size], qs, src[anchor..])
  {
    size := 0;
    LastPays(anchor, |src| - anchor, start);
    if start + LiteralsNeed(|src| - anchor) > dst.Length {
      return false, 0;
    }
    LiteralsFit(src[anchor..], 0);
    size := EmitLiterals(dst, start, src[anchor..], 0);
    assert src[..anchor] + src[anchor..] == src;
    ok := true;
  }

  /**
   * `lz4_compress_block`, with `dst.Length` for `dst_cap`. Whenever it succeeds the output is a block for
   * exactly `src`, and it cannot fail for a source of admissible size and a buffer of `Bound` bytes.
   */
  method CompressBlock(src: seq<byte>, dst: array<byte>) returns (size: nat, ghost qs: seq<Sequence>, ghost lit: seq<byte>)
    modifies dst
    ensures size <= dst.Length && size <= Bound(|src|)
    ensures size > 0 ==> 1 <= |src| <= MAX_SOURCE && Compressed(src, dst[..size], qs, lit)
    ensures 1 <= |src| <= MAX_SOURCE && dst.Length >= Bound(|src|) ==> size > 0
  {
    qs, lit := [], [];
    if |src| == 0 || |src| > MAX_SOURCE {
      return 0, [], [];
    }
    var htab := new nat[HASH_SIZE](_ => 0);
    var ip, anchor, op := 1, 0, 0;
    assert dst[..0] == [] && src[..0] == [];
    while ip < |src| - MFLIMIT
      invariant 0 <= anchor <= ip && 1 <= ip <= |src| && 0 <= op <= dst.Length
      invariant forall h :: 0 <= h < HASH_SIZE ==> htab[h] < ip
      invariant Ongoing(src, anchor, dst[..op], qs)
      decreases |src| - ip
    {
      var h := Hash4(src, ip);
      var ref := htab[h];
      htab[h] := ip;
      if ip - ref > MAX_OFFSET || src[ip..ip + MIN_MATCH] != src[ref..ref + MIN_MATCH] {
        ip := ip + 1;
        continue;
      }
      var ok, next, e, rs := TakeMatch(src, anchor, ip, ref, dst, op, qs);
      if !ok {
        return 0, qs, lit;
      }
      ip, anchor, op, qs := next, next, e, rs;
    }
    lit := src[anchor..];
    var ok;
    ok, size := Finish(src, anchor, dst, op, qs);
    if !ok {
      size := 0;
    }
  }

  lemma BoundGrows(a: nat, n: nat)
    requires a <= n
    ensures a + a / 255 <= Bound(n)
  {
  }

  /** The block-size field of a frame: not the end mark, and without the uncompressed flag. */
  lemma SizeFieldIsPlain(n: nat, size: nat)
    requires n <= MAX_SOURCE && size <= Bound(n)
    ensures size < 0x8000_0000
  {
  }
}
