/** Bytes, the little-endian words they make up, and where they stand in a longer run. */
module Words {

  const TWO_31 := 0x8000_0000
  const TWO_32 := 0x1_0000_0000

  newtype byte = b: int | 0 <= b < 256

  datatype Option<+T> = None | Some(value: T)

  type word = w: int | 0 <= w < 0x1_0000_0000

  /** The 16-bit little-endian word at `o`. */
  function Half(f: seq<byte>, o: nat): nat
    requires o + 2 <= |f|
  {
    f[o] as int + 0x100 * f[o + 1] as int
  }

  /** The two bytes of a word, low first. */
  function Le16(w: nat): (r: seq<byte>)
    requires w < 0x1_0000
    ensures |r| == 2
  {
    [(w % 0x100) as byte, (w / 0x100) as byte]
  }

  /** The four bytes of a word, low first. */
  function Le32(v: word): (r: seq<byte>)
    ensures |r| == 4
  {
    [(v % 0x100) as byte, (v / 0x100 % 0x100) as byte, (v / 0x10000 % 0x100) as byte, (v / 0x1000000) as byte]
  }

  /** The 32-bit little-endian word at `ip`. */
  function Word(src: seq<byte>, ip: nat): word
    requires ip + 4 <= |src|
  {
    src[ip] as int + 0x100 * src[ip + 1] as int + 0x10000 * src[ip + 2] as int + 0x1000000 * src[ip + 3] as int
  }

  /** `b` stands in `src` at `ip`. */
  ghost predicate Has(src: seq<byte>, ip: nat, b: seq<byte>) {
    ip + |b| <= |src| && forall i {:trigger b[i]} :: 0 <= i < |b| ==> src[ip + i] == b[i]
  }

  lemma HasBoth(src: seq<byte>, ip: nat, a: seq<byte>, b: seq<byte>)
    requires Has(src, ip, a + b)
    ensures Has(src, ip, a) && Has(src, ip + |a|, b)
  {
    var ab := a + b;
    forall i | 0 <= i < |a| ensures src[ip + i] == a[i] {
      assert ab[i] == a[i];
    }
    forall i | 0 <= i < |b| ensures src[ip + |a| + i] == b[i] {
      assert ab[|a| + i] == b[i];
    }
  }

  lemma HasSlice(src: seq<byte>, ip: nat, b: seq<byte>)
    requires Has(src, ip, b)
    ensures src[ip..ip + |b|] == b
  {
  }

  lemma WordOfLe32(src: seq<byte>, ip: nat, v: word)
    requires Has(src, ip, Le32(v))
    ensures Word(src, ip) == v
  {
    var b := Le32(v);
    assert src[ip + 0] == b[0] && src[ip + 1] == b[1] && src[ip + 2] == b[2] && src[ip + 3] == b[3];
    var x := v / 0x100;
    assert v == 0x100 * x + v % 0x100;
    var y := x / 0x100;
    assert x == 0x100 * y + x % 0x100 && v / 0x10000 == y && v / 0x1000000 == y / 0x100;
  }

  lemma HalfOfLe16(src: seq<byte>, ip: nat, v: nat)
    requires v < 0x1_0000 && Has(src, ip, Le16(v))
    ensures Half(src, ip) == v
  {
    var b := Le16(v);
    assert src[ip + 0] == b[0] && src[ip + 1] == b[1];
  }
}
