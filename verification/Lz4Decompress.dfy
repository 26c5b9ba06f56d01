/** The kernel's LZ4 block decompressor, src/kernel/lz4.c: two cursors and an output buffer. */
module Lz4Decompress {
  import opened Words
  import opened Lz4Format


  /** The C cast of a size to a 32-bit `int`. */
  function ToInt32(n: nat): int
    requires n < TWO_32
  {
    if n >= TWO_31 then n - TWO_32 else n
  }

  /** The `do ... while (extra == 255)` loop that both lengths share. */
  method ReadExtra(src: seq<byte>, start: nat, acc: nat) returns (ok: bool, n: nat, ip: nat)
    requires start <= |src|
    ensures ReadExtension(src, start, acc) == if ok then Some((n, ip)) else None
    ensures ok ==> start <= ip <= |src|
  {
    n := acc;
    ip := start;
    while ip < |src|
      invariant start <= ip <= |src|
      invariant ReadExtension(src, start, acc) == ReadExtension(src, ip, n)
    {
      var extra := src[ip];
      ip := ip + 1;
      n := n + extra as int;
      if extra != 255 {
        return true, n, ip;
      }
    }
    ok := false;
  }

  method ReadSize(src: seq<byte>, start: nat, nibble: nat) returns (ok: bool, n: nat, ip: nat)
    requires start <= |src|
    ensures ReadLength(src, start, nibble) == if ok then Some((n, ip)) else None
    ensures ok ==> start <= ip <= |src|
  {
    if nibble == 15 {
      ok, n, ip := ReadExtra(src, start, 15);
    } else {
      ok, n, ip := true, nibble, start;
    }
  }

  /** Everything outside `dst[lo..hi]` is as it was. */
  twostate predicate OnlyWrote(dst: array<byte>, lo: int, hi: int)
    reads dst
  {
    forall i :: 0 <= i < dst.Length && !(lo <= i < hi) ==> dst[i] == old(dst[i])
  }

  method CopyLiterals(src: seq<byte>, ip: nat, dst: array<byte>, op: nat, n: nat)
    requires ip + n <= |src| && op + n <= dst.Length
    modifies dst
    ensures OnlyWrote(dst, op, op + n)
    ensures dst[op..op + n] == src[ip..ip + n]
  {
    for i := 0 to n
      invariant OnlyWrote(dst, op, op + i)
      invariant forall k :: op <= k < op + i ==> dst[k] == src[ip + k - op]
    {
      dst[op + i] := src[ip + i];
    }
  }

  method AppendLiterals(src: seq<byte>, ip: nat, dst: array<byte>, base: nat, op: nat, n: nat)
    requires ip + n <= |src| && base <= op && op + n <= dst.Length
    modifies dst
    ensures OnlyWrote(dst, op, op + n)
    ensures dst[base..op + n] == old(dst[base..op]) + src[ip..ip + n]
  {
    CopyLiterals(src, ip, dst, op, n);
    assert dst[base..op + n] == dst[base..op] + dst[op..op + n];
  }

  /** Bytes that repeat those `offset` before them are what the overlapping copy makes. */
  lemma RepeatedIsCopy(data: seq<byte>, at: nat, offset: nat, n: nat)
    requires 1 <= offset <= at && |data| == at + n
    requires forall i :: at <= i < at + n ==> data[i] == data[i - offset]
    ensures data == Copy(data[..at], offset, n)
  {
    CopyReproduces(data, at, offset, n);
    assert data[..at + n] == data;
  }

  method CopyBytes(dst: array<byte>, op: nat, offset: nat, n: nat)
    requires 1 <= offset <= op && op + n <= dst.Length
    modifies dst
    ensures OnlyWrote(dst, op, op + n)
    ensures forall k :: op <= k < op + n ==> dst[k] == dst[k - offset]
  {
    for i := 0 to n
      invariant OnlyWrote(dst, op, op + i)
      invariant forall k :: op <= k < op + i ==> dst[k] == dst[k - offset]
    {
      dst[op + i] := dst[op + i - offset];
    }
  }

  /** The overlapping copy, from low addresses to high. */
  method CopyMatch(dst: array<byte>, base: nat, op: nat, offset: nat, n: nat)
    requires base <= op && 1 <= offset <= op - base && op + n <= dst.Length
    modifies dst
    ensures OnlyWrote(dst, op, op + n)
    ensures dst[base..op + n] == Copy(old(dst[base..op]), offset, n)
  {
    ghost var out := dst[base..op];
    CopyBytes(dst, op, offset, n);
    ghost var data := dst[base..op + n];
    assert data[..op - base] == out;
    RepeatedIsCopy(data, op - base, offset, n);
  }

  /** How far the loop body got: an error, the end of the block, or the next sequence. */
  datatype Progress = Failed | Ended | Onward

  /** From the match offset to the end of the match copy. */
  method MatchStep(src: seq<byte>, q: nat, dst: array<byte>, base: nat, start: nat, cap: nat, nibble: nat)
    returns (r: Progress, ip: nat, op: nat)
    requires q <= |src| && base <= start <= base + cap <= dst.Length
    modifies dst
    ensures OnlyWrote(dst, base, base + cap) && ip <= |src| && base <= op <= base + cap
    ensures ReadMatch(src, q, old(dst[base..start]), cap, nibble)
            == (match r case Failed => Bad case Ended => Last(dst[base..op]) case Onward => More(dst[base..op], ip))
  {
    ip, op := q, start;
    if q >= |src| {
      return Ended, ip, op;
    }
    if q + 2 > |src| {
      return Failed, ip, op;
    }
    var offset := src[q] as int + 256 * (src[q + 1] as int);
    if offset == 0 {
      return Failed, ip, op;
    }
    var ok, n, e := ReadSize(src, q + 2, nibble);
    if !ok || offset > op - base || op + n + MIN_MATCH > base + cap {
      return Failed, ip, op;
    }
    CopyMatch(dst, base, op, offset, n + MIN_MATCH);
    MatchFrom(src, q, old(dst[base..start]), cap, nibble, offset, n, e);
    return Onward, e, op + n + MIN_MATCH;
  }

  /** From the token to the end of the literals. */
  method LiteralStep(src: seq<byte>, start: nat, dst: array<byte>, base: nat, from: nat, cap: nat)
    returns (ok: bool, q: nat, op: nat, nibble: nat)
    requires start <= |src| && base <= from <= base + cap <= dst.Length
    modifies dst
    ensures OnlyWrote(dst, base, base + cap) && q <= |src| && base <= op <= base + cap
    ensures ReadSequence(src, start, old(dst[base..from]), cap)
            == if ok then ReadMatch(src, q, dst[base..op], cap, nibble) else Bad
  {
    ok, q, op, nibble := false, start, from, 0;
    if start >= |src| {
      return;
    }
    var token := src[start] as int;
    var read, litLen, p := ReadSize(src, start + 1, token / 16);
    if !read || p + litLen > |src| || op + litLen > base + cap {
      return;
    }
    AppendLiterals(src, p, dst, base, op, litLen);
    return true, p + litLen, op + litLen, token % 16;
  }

  /** One turn of the decompression loop. */
  method SequenceStep(src: seq<byte>, start: nat, dst: array<byte>, base: nat, from: nat, cap: nat)
    returns (r: Progress, ip: nat, op: nat)
    requires start <= |src| && base <= from <= base + cap <= dst.Length
    modifies dst
    ensures OnlyWrote(dst, base, base + cap) && ip <= |src| && base <= op <= base + cap
    ensures ReadSequence(src, start, old(dst[base..from]), cap)
            == (match r case Failed => Bad case Ended => Last(dst[base..op]) case Onward => More(dst[base..op], ip))
  {
    var ok, q, nibble;
    ok, q, op, nibble := LiteralStep(src, start, dst, base, from, cap);
    if !ok {
      return Failed, start, from;
    }
    r, ip, op := MatchStep(src, q, dst, base, op, cap, nibble);
  }

  /** Decompress `src` into `dst[base..base + cap]`; nothing outside that window is touched. */
  method DecompressBlock(src: seq<byte>, dst: array<byte>, base: nat, cap: nat) returns (ret: int)
    requires base + cap <= dst.Length < TWO_32
    modifies dst
    ensures OnlyWrote(dst, base, base + cap)
    ensures match DecodeBlock(src, cap)
            case None => ret == -1
            case Some(out) => |out| <= cap && ret == ToInt32(|out|) && dst[base..base + |out|] == out
  {
    var ip, op := 0, base;
    assert dst[base..op] == [];
    while true
      invariant 0 <= ip <= |src| && base <= op <= base + cap
      invariant OnlyWrote(dst, base, base + cap)
      invariant DecodeBlock(src, cap) == DecodeFrom(src, ip, dst[base..op], cap)
      decreases |src| - ip
    {
      var r, e, o := SequenceStep(src, ip, dst, base, op, cap);
      if r.Failed? {
        return -1;
      }
      ip, op := e, o;
      if r.Ended? {
        return ToInt32(op - base);
      }
    }
  }
}
