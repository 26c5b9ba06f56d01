/** FAT entries of src/kernel/fat.c: 12, 16 or 28 bits packed into the bytes of a table. */
module FatTable {
  import opened Words

  const SECTOR := 512

  datatype FatType = Fat12 | Fat16 | Fat32

  /** Byte offset of an entry. */
  function Offset(ft: FatType, c: nat): nat {
    match ft
    case Fat12 => c + c / 2
    case Fat16 => c * 2
    case Fat32 => c * 4
  }

  function Width(ft: FatType): nat {
    match ft case Fat12 => 2 case Fat16 => 2 case Fat32 => 4
  }

  /** Number of values an entry can hold. */
  function Range(ft: FatType): nat {
    match ft case Fat12 => 0x1000 case Fat16 => 0x1_0000 case Fat32 => 0x1000_0000
  }

  function EocMin(ft: FatType): nat {
    match ft case Fat12 => 0xFF8 case Fat16 => 0xFFF8 case Fat32 => 0x0FFF_FFF8
  }

  function EocMark(ft: FatType): nat {
    match ft case Fat12 => 0xFFF case Fat16 => 0xFFFF case Fat32 => 0x0FFF_FFFF
  }

  /** The type mounting picks for a volume of so many clusters. */
  function TypeFor(total: nat): FatType {
    if total < 4085 then Fat12 else if total < 65525 then Fat16 else Fat32
  }

  /**
   * Cluster numbers and end marks never meet on FAT12 and FAT16, whatever the volume; on FAT32 they do not
   * exactly as long as the volume stays below the first mark.
   */
  lemma TypeSeparates(total: nat)
    ensures total + 2 <= EocMin(TypeFor(total)) <==> total < 65525 || total + 2 <= 0x0FFF_FFF8
  {
  }

  predicate Covers(ft: FatType, f: seq<byte>, c: nat) {
    Offset(ft, c) + Width(ft) <= |f|
  }

  /** What entry `c` of the table `f` holds. */
  function Entry(ft: FatType, f: seq<byte>, c: nat): nat
    requires Covers(ft, f, c)
  {
    var o := Offset(ft, c);
    match ft
    case Fat12 => if c % 2 == 1 then Half(f, o) / 0x10 else Half(f, o) % 0x1000
    case Fat16 => Half(f, o)
    case Fat32 => (Half(f, o) + 0x1_0000 * Half(f, o + 2)) % 0x1000_0000
  }

  /** Two 12-bit entries in three bytes: the even one has the low half of the middle byte, the odd one the high half. */
  lemma Entry12Is(f: seq<byte>, k: nat)
    requires 3 * k + 3 <= |f|
    ensures Covers(Fat12, f, 2 * k) && Covers(Fat12, f, 2 * k + 1)
    ensures Entry(Fat12, f, 2 * k) == f[3 * k] as int + 0x100 * (f[3 * k + 1] as int % 0x10)
    ensures Entry(Fat12, f, 2 * k + 1) == f[3 * k + 1] as int / 0x10 + 0x10 * f[3 * k + 2] as int
  {
    assert Offset(Fat12, 2 * k) == 3 * k && Offset(Fat12, 2 * k + 1) == 3 * k + 1;
  }

  /** A 16-bit entry is two bytes, low first. */
  lemma Entry16Is(f: seq<byte>, c: nat)
    requires 2 * c + 2 <= |f|
    ensures Covers(Fat16, f, c) && Entry(Fat16, f, c) == f[2 * c] as int + 0x100 * f[2 * c + 1] as int
  {
  }

  /** A 32-bit entry is the low 28 bits of four bytes, low first. */
  lemma Entry32Is(f: seq<byte>, c: nat)
    requires 4 * c + 4 <= |f|
    ensures Covers(Fat32, f, c)
    ensures Entry(Fat32, f, c) == f[4 * c] as int + 0x100 * f[4 * c + 1] as int + 0x1_0000 * f[4 * c + 2] as int
                                  + 0x100_0000 * (f[4 * c + 3] as int % 0x10)
  {
  }

  function PutHalf(f: seq<byte>, o: nat, w: nat): seq<byte>
    requires o + 2 <= |f| && w < 0x1_0000
  {
    f[o := Le16(w)[0]][o + 1 := Le16(w)[1]]
  }

  /** The word a FAT12 update leaves behind: twelve bits new, the neighbour's four kept. */
  function Mixed(w: nat, odd: bool, v: nat): (r: nat)
    requires w < 0x1_0000
    ensures r < 0x1_0000
  {
    if odd then w % 0x10 + v % 0x1000 * 0x10 else w / 0x1000 * 0x1000 + v % 0x1000
  }

  /** The high word a FAT32 update leaves behind: twelve bits new, the reserved four kept. */
  function High(w: nat, v: nat): (r: nat)
    requires w < 0x1_0000
    ensures r < 0x1_0000
  {
    w / 0x1000 * 0x1000 + v / 0x1_0000 % 0x1000
  }

  /** Table `f` with entry `c` set to `v`, all other bits as they were. */
  function Update(ft: FatType, f: seq<byte>, c: nat, v: nat): (r: seq<byte>)
    requires Covers(ft, f, c)
    ensures |r| == |f|
  {
    var o := Offset(ft, c);
    match ft
    case Fat12 => PutHalf(f, o, Mixed(Half(f, o), c % 2 == 1, v))
    case Fat16 => PutHalf(f, o, v % 0x1_0000)
    case Fat32 =>
      PutHalf(PutHalf(f, o, v % 0x1_0000), o + 2, High(Half(f, o + 2), v))
  }

  /** The four reserved bits of a 32-bit entry are as they were, and so is every byte that is not the entry's. */
  lemma ReservedKept(f: seq<byte>, c: nat, v: nat)
    requires 4 * c + 4 <= |f|
    ensures Covers(Fat32, f, c)
    ensures Update(Fat32, f, c, v)[4 * c + 3] as int / 0x10 == f[4 * c + 3] as int / 0x10
    ensures forall i :: 0 <= i < |f| && !(4 * c <= i < 4 * c + 4) ==> Update(Fat32, f, c, v)[i] == f[i]
  {
    var a, b := f[4 * c + 2] as int, f[4 * c + 3] as int;
    var h, n := b / 0x10, v / 0x1_0000 % 0x1000;
    assert (a + 0x100 * b) / 0x1000 == h;
    HighByteIs(h, n);
  }

  lemma HighByteIs(h: nat, n: nat)
    requires h < 0x10 && n < 0x1000
    ensures (h * 0x1000 + n) / 0x100 / 0x10 == h
  {
    Rest4096(h * 0x1000 + n, h, n);
    Rest256(h * 0x1000 + n, h * 0x10 + n / 0x100, n % 0x100);
    Rest16(h * 0x10 + n / 0x100, h, n / 0x100);
  }

  lemma HalfOfPut(f: seq<byte>, o: nat, w: nat)
    requires o + 2 <= |f| && w < 0x1_0000
    ensures Half(PutHalf(f, o, w), o) == w
  {
  }

  lemma MixedHolds(w: nat, odd: bool, v: nat)
    requires w < 0x1_0000
    ensures (if odd then Mixed(w, odd, v) / 0x10 else Mixed(w, odd, v) % 0x1000) == v % 0x1000
  {
    var x := v % 0x1000;
    if odd {
      var low := w % 0x10;
      assert (low + x * 0x10) / 0x10 == x;
    } else {
      var high := w / 0x1000;
      assert (high * 0x1000 + x) % 0x1000 == x;
    }
  }

  lemma Digits28(v: nat, high: nat)
    ensures (v % 0x1_0000 + 0x1_0000 * (high * 0x1000 + v / 0x1_0000 % 0x1000)) % 0x1000_0000 == v % 0x1000_0000
  {
    var low, mid, top := v % 0x1_0000, v / 0x1_0000 % 0x1000, v / 0x1000_0000;
    assert v == low + 0x1_0000 * (v / 0x1_0000);
    assert v / 0x1_0000 == mid + 0x1000 * (v / 0x1_0000 / 0x1000);
    assert v / 0x1_0000 / 0x1000 == top;
    assert v == low + 0x1_0000 * mid + 0x1000_0000 * top;
  }

  lemma Update32(f: seq<byte>, c: nat, v: nat)
    requires Covers(Fat32, f, c)
    ensures Entry(Fat32, Update(Fat32, f, c, v), c) == v % Range(Fat32)
  {
    var o := Offset(Fat32, c);
    var low, high := v % 0x1_0000, High(Half(f, o + 2), v);
    var g := PutHalf(f, o, low);
    HalfOfPut(f, o, low);
    HalfOfPut(g, o + 2, high);
    var u := Update(Fat32, f, c, v);
    assert u == PutHalf(g, o + 2, high);
    assert Half(u, o) == Half(g, o) == low;
    Digits28(v, Half(f, o + 2) / 0x1000);
  }

  /** An entry reads back as what was written, cut to the width of the table. */
  lemma EntryOfUpdate(ft: FatType, f: seq<byte>, c: nat, v: nat)
    requires Covers(ft, f, c)
    ensures Entry(ft, Update(ft, f, c, v), c) == v % Range(ft)
  {
    var o := Offset(ft, c);
    match ft
    case Fat12 =>
      var w := Half(f, o);
      HalfOfPut(f, o, Mixed(w, c % 2 == 1, v));
      MixedHolds(w, c % 2 == 1, v);
    case Fat16 =>
      HalfOfPut(f, o, v % 0x1_0000);
    case Fat32 =>
      Update32(f, c, v);
  }

  /** Neighbouring FAT12 entries share a byte: the even one has its low half, the odd one its high half. */
  lemma SharedByte(f: seq<byte>, k: nat, v: nat)
    requires 3 * k + 3 <= |f|
    ensures Entry(Fat12, Update(Fat12, f, 2 * k, v), 2 * k + 1) == Entry(Fat12, f, 2 * k + 1)
    ensures Entry(Fat12, Update(Fat12, f, 2 * k + 1, v), 2 * k) == Entry(Fat12, f, 2 * k)
  {
    assert Offset(Fat12, 2 * k) == 3 * k && Offset(Fat12, 2 * k + 1) == 3 * k + 1;
    SharedLow(f[3 * k] as int, f[3 * k + 1] as int, f[3 * k + 2] as int, v);
  }

  lemma SharedLow(a: nat, b: nat, d: nat, v: nat)
    requires a < 256 && b < 256 && d < 256
    ensures (Mixed(a + 0x100 * b, false, v) / 0x100 + 0x100 * d) / 0x10 == (b + 0x100 * d) / 0x10
    ensures (a + 0x100 * (Mixed(b + 0x100 * d, true, v) % 0x100)) % 0x1000 == (a + 0x100 * b) % 0x1000
  {
    EvenLow(a, b, d, v % 0x1000);
    OddLow(a, b, d, v % 0x1000);
  }

  lemma Rest16(n: nat, q: nat, r: nat)
    requires n == 0x10 * q + r && r < 0x10
    ensures n / 0x10 == q && n % 0x10 == r
  {
  }

  lemma Rest256(n: nat, q: nat, r: nat)
    requires n == 0x100 * q + r && r < 0x100
    ensures n / 0x100 == q && n % 0x100 == r
  {
  }

  lemma Rest4096(n: nat, q: nat, r: nat)
    requires n == 0x1000 * q + r && r < 0x1000
    ensures n / 0x1000 == q && n % 0x1000 == r
  {
  }

  lemma EvenLow(a: nat, b: nat, d: nat, x: nat)
    requires a < 256 && b < 256 && d < 256 && x < 0x1000
    ensures (((a + 0x100 * b) / 0x1000 * 0x1000 + x) / 0x100 + 0x100 * d) / 0x10 == (b + 0x100 * d) / 0x10
  {
    var h, l, xh, xl := b / 0x10, b % 0x10, x / 0x100, x % 0x100;
    Rest4096(a + 0x100 * b, h, a + 0x100 * l);
    Rest256(h * 0x1000 + x, h * 0x10 + xh, xl);
    Rest16(h * 0x10 + xh + 0x100 * d, h + 0x10 * d, xh);
    Rest16(b + 0x100 * d, h + 0x10 * d, l);
  }

  lemma OddLow(a: nat, b: nat, d: nat, x: nat)
    requires a < 256 && b < 256 && d < 256 && x < 0x1000
    ensures (a + 0x100 * (((b + 0x100 * d) % 0x10 + x * 0x10) % 0x100)) % 0x1000 == (a + 0x100 * b) % 0x1000
  {
    var h, l, xh, xl := b / 0x10, b % 0x10, x / 0x10, x % 0x10;
    Rest16(b + 0x100 * d, h + 0x10 * d, l);
    Rest256(l + x * 0x10, xh, l + xl * 0x10);
    Rest4096(a + 0x100 * (l + xl * 0x10), xl, a + 0x100 * l);
    Rest4096(a + 0x100 * b, h, a + 0x100 * l);
  }

  /** Entries apart from `c` do not change. */
  lemma OtherEntries(ft: FatType, f: seq<byte>, c: nat, v: nat, e: nat)
    requires Covers(ft, f, c) && Covers(ft, f, e) && e != c
    ensures Entry(ft, Update(ft, f, c, v), e) == Entry(ft, f, e)
  {
    if ft == Fat12 {
      if c % 2 == 0 && e == c + 1 {
        SharedByte(f, c / 2, v);
      } else if c % 2 == 1 && e == c - 1 {
        SharedByte(f, e / 2, v);
      } else {
        assert Offset(ft, e) + 2 <= Offset(ft, c) || Offset(ft, c) + 2 <= Offset(ft, e);
      }
    }
  }
}
