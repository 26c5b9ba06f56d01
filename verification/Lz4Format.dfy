/** The LZ4 block format: what a block says, how it is written down, and how it is read back. */
module Lz4Format {
  import opened Seqs
  import opened Words

  const MIN_MATCH := 4
  const MAX_OFFSET := 65535

  /** Some literal bytes, then a copy of `MIN_MATCH + more` bytes found `offset` back in the output. */
  datatype Sequence = Sequence(lit: seq<byte>, offset: nat, more: nat)

  // ---- Meaning ----

  /** Byte-by-byte copy, so that a copy may read what it has just written. */
  function Copy(out: seq<byte>, offset: nat, n: nat): (r: seq<byte>)
    requires 1 <= offset <= |out|
    ensures |r| == |out| + n
    decreases n
  {
    if n == 0 then out else Copy(out + [out[|out| - offset]], offset, n - 1)
  }

  predicate Valid(out: seq<byte>, q: Sequence) {
    1 <= q.offset <= MAX_OFFSET && q.offset <= |out| + |q.lit|
  }

  function Replay(out: seq<byte>, q: Sequence): seq<byte>
    requires Valid(out, q)
  {
    Copy(out + q.lit, q.offset, q.more + MIN_MATCH)
  }

  predicate AllValid(out: seq<byte>, qs: seq<Sequence>)
    decreases |qs|
  {
    qs == [] || (Valid(out, qs[0]) && AllValid(Replay(out, qs[0]), qs[1..]))
  }

  /** The output after all of `qs`, starting from `out`. */
  function ReplayAll(out: seq<byte>, qs: seq<Sequence>): seq<byte>
    requires AllValid(out, qs)
    decreases |qs|
  {
    if qs == [] then out else ReplayAll(Replay(out, qs[0]), qs[1..])
  }

  // ---- Writing ----

  /** A length beyond the nibble: as many 255 bytes as fit, then the rest. */
  function Extension(n: nat): (r: seq<byte>)
    ensures |r| >= 1
  {
    if n >= 255 then [255] + Extension(n - 255) else [n as byte]
  }

  function Nibble(n: nat): (r: nat)
    ensures r <= 15
  {
    if n >= 15 then 15 else n
  }

  function Token(litLen: nat, low: nat): byte
    requires low <= 15
  {
    (Nibble(litLen) * 16 + low) as byte
  }

  function LengthBytes(n: nat): seq<byte> {
    if n >= 15 then Extension(n - 15) else []
  }

  function OffsetBytes(offset: nat): (r: seq<byte>)
    requires offset <= MAX_OFFSET
    ensures |r| == 2
  {
    [(offset % 256) as byte, (offset / 256) as byte]
  }

  /** Token, literal length and literals; the low half of the token is for the match that may follow. */
  function EncodeLiterals(lit: seq<byte>, low: nat): seq<byte>
    requires low <= 15
  {
    [Token(|lit|, low)] + LengthBytes(|lit|) + lit
  }

  function EncodeMatch(offset: nat, more: nat): seq<byte>
    requires offset <= MAX_OFFSET
  {
    OffsetBytes(offset) + LengthBytes(more)
  }

  function EncodeSequence(q: Sequence): seq<byte>
    requires q.offset <= MAX_OFFSET
  {
    EncodeLiterals(q.lit, Nibble(q.more)) + EncodeMatch(q.offset, q.more)
  }

  function EncodeLast(lit: seq<byte>): seq<byte> {
    EncodeLiterals(lit, 0)
  }

  predicate Writable(qs: seq<Sequence>) {
    forall i :: 0 <= i < |qs| ==> qs[i].offset <= MAX_OFFSET
  }

  function EncodeAll(qs: seq<Sequence>): seq<byte>
    requires Writable(qs)
  {
    if qs == [] then [] else EncodeSequence(qs[0]) + EncodeAll(qs[1..])
  }

  /** A whole block: the sequences, then the literals that end it. */
  function EncodeBlock(qs: seq<Sequence>, lit: seq<byte>): seq<byte>
    requires Writable(qs)
  {
    EncodeAll(qs) + EncodeLast(lit)
  }

  /** One literal, six bytes copied from one byte back, then five literals. */
  lemma KnownBlock(qs: seq<Sequence>, lit: seq<byte>)
    requires qs == [Sequence([97], 1, 2)] && lit == [98, 99, 100, 101, 102]
    ensures Writable(qs) && EncodeBlock(qs, lit) == [0x12, 97, 1, 0, 0x50, 98, 99, 100, 101, 102]
  {
    assert qs[1..] == [];
    assert EncodeAll([]) == [];
    assert EncodeSequence(qs[0]) == [0x12, 97, 1, 0];
  }

  // ---- Reading ----

  /** Add bytes to `acc` until one is not 255; the result is the sum and the position after it. */
  function ReadExtension(src: seq<byte>, ip: nat, acc: nat): (r: Option<(nat, nat)>)
    requires ip <= |src|
    ensures r.Some? ==> ip < r.value.1 <= |src| && acc <= r.value.0
    decreases |src| - ip
  {
    if ip == |src| then None
    else if src[ip] == 255 then ReadExtension(src, ip + 1, acc + 255)
    else Some((acc + src[ip] as int, ip + 1))
  }

  function ReadLength(src: seq<byte>, ip: nat, nibble: nat): (r: Option<(nat, nat)>)
    requires ip <= |src|
    ensures r.Some? ==> ip <= r.value.1 <= |src|
  {
    if nibble == 15 then ReadExtension(src, ip, 15) else Some((nibble, ip))
  }

  /** One sequence read at `ip` with `out` already produced: the end of the block, or where it goes on. */
  datatype Item = Bad | Last(out: seq<byte>) | More(out: seq<byte>, ip: nat)

  function ReadSequence(src: seq<byte>, ip: nat, out: seq<byte>, cap: nat): (r: Item)
    requires ip <= |src|
    ensures r.More? ==> ip < r.ip <= |src|
  {
    if ip == |src| then Bad else
    var token := src[ip] as int;
    match ReadLength(src, ip + 1, token / 16)
    case None => Bad
    case Some((litLen, p)) =>
      if p + litLen > |src| || |out| + litLen > cap then Bad else
      var got := out + src[p..p + litLen];
      ReadMatch(src, p + litLen, got, cap, token % 16)
  }

  function ReadMatch(src: seq<byte>, ip: nat, out: seq<byte>, cap: nat, nibble: nat): (r: Item)
    requires ip <= |src|
    ensures r.More? ==> ip < r.ip <= |src|
  {
    if ip == |src| then Last(out)
    else if ip + 2 > |src| then Bad
    else
      var offset: int := (src[ip] as int) + 256 * (src[ip + 1] as int);
      if offset == 0 then Bad else
      match ReadLength(src, ip + 2, nibble)
      case None => Bad
      case Some((n, p)) =>
        if offset > |out| || |out| + n + MIN_MATCH > cap then Bad
        else More(Copy(out, offset, n + MIN_MATCH), p)
  }

  function DecodeFrom(src: seq<byte>, ip: nat, out: seq<byte>, cap: nat): Option<seq<byte>>
    requires ip <= |src|
    decreases |src| - ip
  {
    match ReadSequence(src, ip, out, cap)
    case Bad => None
    case Last(r) => Some(r)
    case More(r, p) => DecodeFrom(src, p, r, cap)
  }

  function DecodeBlock(src: seq<byte>, cap: nat): Option<seq<byte>> {
    DecodeFrom(src, 0, [], cap)
  }

  // ---- Reading undoes writing ----

  /** The bytes `b` stand at position `ip`. */
  lemma {:induction false} ReadsExtension(src: seq<byte>, ip: nat, n: nat, acc: nat)
    requires Has(src, ip, Extension(n))
    ensures ReadExtension(src, ip, acc) == Some((acc + n, ip + |Extension(n)|))
    decreases n
  {
    assert src[ip + 0] == Extension(n)[0];
    if n >= 255 {
      HasBoth(src, ip, [255], Extension(n - 255));
      ReadsExtension(src, ip + 1, n - 255, acc + 255);
    }
  }

  lemma ReadsLength(src: seq<byte>, ip: nat, n: nat)
    requires Has(src, ip, LengthBytes(n))
    ensures ReadLength(src, ip, Nibble(n)) == Some((n, ip + |LengthBytes(n)|))
  {
    if n >= 15 {
      ReadsExtension(src, ip, n - 15, 15);
    }
  }

  lemma ReadsOffset(src: seq<byte>, ip: nat, offset: nat)
    requires offset <= MAX_OFFSET && Has(src, ip, OffsetBytes(offset))
    ensures (src[ip] as int) + 256 * (src[ip + 1] as int) == offset
  {
    var o := OffsetBytes(offset);
    assert src[ip + 0] == o[0] && src[ip + 1] == o[1];
  }

  lemma MatchFrom(src: seq<byte>, ip: nat, out: seq<byte>, cap: nat, nibble: nat, offset: nat, n: nat, p: nat)
    requires ip + 2 <= |src| && (src[ip] as int) + 256 * (src[ip + 1] as int) == offset
    requires ReadLength(src, ip + 2, nibble) == Some((n, p))
    requires 1 <= offset <= |out| && |out| + n + MIN_MATCH <= cap
    ensures ReadMatch(src, ip, out, cap, nibble) == More(Copy(out, offset, n + MIN_MATCH), p)
  {
  }

  lemma ReadsMatch(src: seq<byte>, ip: nat, offset: nat, n: nat, out: seq<byte>, cap: nat)
    requires 1 <= offset <= |out| && |out| + n + MIN_MATCH <= cap
    requires ip + 2 <= |src| && (src[ip] as int) + 256 * (src[ip + 1] as int) == offset
    requires Has(src, ip + 2, LengthBytes(n))
    ensures ReadMatch(src, ip, out, cap, Nibble(n)) == More(Copy(out, offset, n + MIN_MATCH), ip + 2 + |LengthBytes(n)|)
  {
    ReadsLength(src, ip + 2, n);
    MatchFrom(src, ip, out, cap, Nibble(n), offset, n, ip + 2 + |LengthBytes(n)|);
  }

  lemma LiteralBytes(src: seq<byte>, ip: nat, lit: seq<byte>, low: nat)
    requires low <= 15 && Has(src, ip, EncodeLiterals(lit, low))
    ensures var p := ip + 1 + |LengthBytes(|lit|)|;
            && p + |lit| <= |src| && ip + |EncodeLiterals(lit, low)| == p + |lit|
            && src[ip] as int / 16 == Nibble(|lit|) && src[ip] as int % 16 == low
            && Has(src, ip + 1, LengthBytes(|lit|)) && src[p..p + |lit|] == lit
  {
    var t := [Token(|lit|, low)];
    var l := LengthBytes(|lit|);
    HasBoth(src, ip, t + l, lit);
    HasBoth(src, ip, t, l);
    assert src[ip + 0] == t[0];
    HasSlice(src, ip + 1 + |l|, lit);
  }

  /** Token, literal length and literals read back; what follows is a match or the end. */
  lemma ReadsLiterals(src: seq<byte>, ip: nat, lit: seq<byte>, low: nat, out: seq<byte>, cap: nat)
    requires low <= 15 && |out| + |lit| <= cap
    requires Has(src, ip, EncodeLiterals(lit, low))
    ensures var e := ip + |EncodeLiterals(lit, low)|;
            e <= |src| && ReadSequence(src, ip, out, cap) == ReadMatch(src, e, out + lit, cap, low)
  {
    LiteralBytes(src, ip, lit, low);
    ReadsLength(src, ip + 1, |lit|);
  }

  lemma MatchBytes(src: seq<byte>, ip: nat, offset: nat, more: nat)
    requires offset <= MAX_OFFSET && Has(src, ip, EncodeMatch(offset, more))
    ensures ip + 2 <= |src| && (src[ip] as int) + 256 * (src[ip + 1] as int) == offset
    ensures Has(src, ip + 2, LengthBytes(more)) && |EncodeMatch(offset, more)| == 2 + |LengthBytes(more)|
  {
    HasBoth(src, ip, OffsetBytes(offset), LengthBytes(more));
    ReadsOffset(src, ip, offset);
  }

  lemma SequenceBytes(src: seq<byte>, ip: nat, q: Sequence)
    requires q.offset <= MAX_OFFSET && Has(src, ip, EncodeSequence(q))
    ensures var t := EncodeLiterals(q.lit, Nibble(q.more));
            var e := ip + |t|;
            && Has(src, ip, t)
            && e + 2 <= |src| && (src[e] as int) + 256 * (src[e + 1] as int) == q.offset
            && Has(src, e + 2, LengthBytes(q.more)) && |EncodeSequence(q)| == |t| + 2 + |LengthBytes(q.more)|
  {
    var t := EncodeLiterals(q.lit, Nibble(q.more));
    HasBoth(src, ip, t, EncodeMatch(q.offset, q.more));
    MatchBytes(src, ip + |t|, q.offset, q.more);
  }

  lemma ReadsSequence(src: seq<byte>, ip: nat, q: Sequence, out: seq<byte>, cap: nat)
    requires Valid(out, q) && |out| + |q.lit| + q.more + MIN_MATCH <= cap && Has(src, ip, EncodeSequence(q))
    ensures ReadSequence(src, ip, out, cap) == More(Replay(out, q), ip + |EncodeSequence(q)|)
  {
    var t := EncodeLiterals(q.lit, Nibble(q.more));
    SequenceBytes(src, ip, q);
    ReadsLiterals(src, ip, q.lit, Nibble(q.more), out, cap);
    ReadsMatch(src, ip + |t|, q.offset, q.more, out + q.lit, cap);
  }

  lemma ReadsLast(src: seq<byte>, ip: nat, lit: seq<byte>, out: seq<byte>, cap: nat)
    requires |out| + |lit| <= cap && ip + |EncodeLast(lit)| == |src| && Has(src, ip, EncodeLast(lit))
    ensures ReadSequence(src, ip, out, cap) == Last(out + lit)
  {
    ReadsLiterals(src, ip, lit, 0, out, cap);
  }

  lemma {:induction false} ReplayGrows(out: seq<byte>, qs: seq<Sequence>)
    requires AllValid(out, qs)
    ensures |out| <= |ReplayAll(out, qs)|
    decreases |qs|
  {
    if qs != [] {
      ReplayGrows(Replay(out, qs[0]), qs[1..]);
    }
  }

  lemma DecodeMore(src: seq<byte>, ip: nat, out: seq<byte>, cap: nat, r: seq<byte>, p: nat)
    requires ip <= |src| && ReadSequence(src, ip, out, cap) == More(r, p)
    ensures DecodeFrom(src, ip, out, cap) == DecodeFrom(src, p, r, cap)
  {
  }

  lemma FirstBytes(src: seq<byte>, ip: nat, qs: seq<Sequence>, lit: seq<byte>)
    requires Writable(qs) && qs != [] && Has(src, ip, EncodeBlock(qs, lit))
    ensures var e := EncodeSequence(qs[0]);
            && Has(src, ip, e) && Has(src, ip + |e|, EncodeBlock(qs[1..], lit))
            && |EncodeBlock(qs, lit)| == |e| + |EncodeBlock(qs[1..], lit)|
  {
    var e, rest := EncodeSequence(qs[0]), EncodeBlock(qs[1..], lit);
    Assoc(e, EncodeAll(qs[1..]), EncodeLast(lit));
    HasBoth(src, ip, e, rest);
  }

  lemma {:induction false} DecodesFrom(
      src: seq<byte>, ip: nat, qs: seq<Sequence>, lit: seq<byte>, out: seq<byte>, cap: nat)
    requires AllValid(out, qs) && Writable(qs) && |ReplayAll(out, qs)| + |lit| <= cap
    requires Has(src, ip, EncodeBlock(qs, lit)) && ip + |EncodeBlock(qs, lit)| == |src|
    ensures DecodeFrom(src, ip, out, cap) == Some(ReplayAll(out, qs) + lit)
    decreases |qs|
  {
    if qs == [] {
      assert [] + EncodeLast(lit) == EncodeLast(lit);
      ReadsLast(src, ip, lit, out, cap);
    } else {
      var q, r := qs[0], Replay(out, qs[0]);
      var p := ip + |EncodeSequence(q)|;
      FirstBytes(src, ip, qs, lit);
      ReplayGrows(r, qs[1..]);
      ReadsSequence(src, ip, q, out, cap);
      DecodesFrom(src, p, qs[1..], lit, r, cap);
      DecodeMore(src, ip, out, cap, r, p);
    }
  }

  /** The decoder inverts the format: any valid list of sequences is replayed, given room for the output. */
  lemma DecodeInvertsEncode(qs: seq<Sequence>, lit: seq<byte>, cap: nat)
    requires AllValid([], qs) && Writable(qs) && |ReplayAll([], qs)| + |lit| <= cap
    ensures DecodeBlock(EncodeBlock(qs, lit), cap) == Some(ReplayAll([], qs) + lit)
  {
    var src := EncodeBlock(qs, lit);
    DecodesFrom(src, 0, qs, lit, [], cap);
  }

  // ---- Growing a block at its end ----

  lemma {:induction false} AppendValid(out: seq<byte>, qs: seq<Sequence>, q: Sequence)
    requires AllValid(out, qs) && Valid(ReplayAll(out, qs), q)
    ensures AllValid(out, qs + [q])
    ensures ReplayAll(out, qs + [q]) == Replay(ReplayAll(out, qs), q)
    decreases |qs|
  {
    var all := qs + [q];
    if qs == [] {
      assert all[0] == q && all[1..] == [];
    } else {
      AppendValid(Replay(out, qs[0]), qs[1..], q);
      assert all[0] == qs[0] && all[1..] == qs[1..] + [q];
    }
  }

  lemma {:induction false} AppendEncoding(qs: seq<Sequence>, q: Sequence)
    requires Writable(qs) && q.offset <= MAX_OFFSET
    ensures Writable(qs + [q]) && EncodeAll(qs + [q]) == EncodeAll(qs) + EncodeSequence(q)
    decreases |qs|
  {
    var all := qs + [q];
    if qs == [] {
      assert all[0] == q && all[1..] == [];
    } else {
      AppendEncoding(qs[1..], q);
      assert all[0] == qs[0] && all[1..] == qs[1..] + [q];
    }
  }

  /** `n` bytes from `at` repeat those `offset` before them. */
  ghost predicate Repeats(data: seq<byte>, at: nat, offset: nat, n: nat) {
    && offset <= at && at + n <= |data|
    && forall i :: at <= i < at + n ==> data[i] == data[i - offset]
  }

  /** A match in the data is what a copy reproduces, even when the match overlaps what it produces. */
  lemma {:induction false} CopyReproduces(data: seq<byte>, at: nat, offset: nat, n: nat)
    requires 1 <= offset && Repeats(data, at, offset, n)
    ensures Copy(data[..at], offset, n) == data[..at + n]
    decreases n
  {
    if n > 0 {
      assert data[at] == data[at - offset];
      assert data[..at] + [data[at - offset]] == data[..at + 1];
      CopyReproduces(data, at + 1, offset, n - 1);
    }
  }
}
