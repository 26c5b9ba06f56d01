/** One header block: what tools/mkinitrd.c writes into it and what src/drivers/initrd.c makes of it. */
module TarHeader {
  import opened Words
  import opened TarFields

  const SIZE_LIMIT := 256 * 1024 * 1024

  // ---- Writing ----

  function Zeros(n: nat): (r: seq<byte>)
    ensures |r| == n
  {
    seq(n, _ => 0)
  }

  /** What the name field takes: it keeps a NUL at the end. */
  function Clipped(name: seq<byte>): (r: seq<byte>)
    ensures |r| <= 99 && (|name| <= 99 ==> r == name)
  {
    if |name| > 99 then name[..99] else name
  }

  function NameField(name: seq<byte>): (r: seq<byte>)
    ensures |r| == 100
  {
    Clipped(name) + Zeros(100 - |Clipped(name)|)
  }

  /** Mode 0644, owner 0, group 0. */
  function Access(): (r: seq<byte>)
    ensures |r| == 24
  {
    Octal(8, 420) + Octal(8, 0) + Octal(8, 0)
  }

  /** The header up to its checksum. */
  function Front(name: seq<byte>, len: nat): (r: seq<byte>)
    ensures |r| == SUM_AT
  {
    NameField(name) + Access() + Octal(12, len) + Octal(12, 0)
  }

  const USTAR: seq<byte> := [117, 115, 116, 97, 114, 0, 48, 48]

  /** The header after its checksum: a plain file. */
  function Back(): (r: seq<byte>)
    ensures |r| == BLOCK - SUM_END
  {
    [ZERO] + Zeros(100) + USTAR + Zeros(247)
  }

  function HeaderSum(name: seq<byte>, len: nat): (r: nat)
    ensures r < 0x4_0000
  {
    Sum(Front(name, len)) + 256 + Sum(Back())
  }

  function SumField(sum: nat): (r: seq<byte>)
    ensures |r| == 8
  {
    Octal(7, sum) + [SPACE]
  }

  function Header(name: seq<byte>, len: nat): (r: seq<byte>)
    ensures |r| == BLOCK
  {
    Front(name, len) + SumField(HeaderSum(name, len)) + Back()
  }

  /** Where the fields of the header are. */
  lemma HeaderLayout(name: seq<byte>, len: nat)
    ensures var h := Header(name, len);
            && h[..100] == NameField(name) && h[124..136] == Octal(12, len)
            && h[148..156] == SumField(HeaderSum(name, len)) && h[156] == ZERO && h[257..265] == USTAR
  {
    var h, f := Header(name, len), Front(name, len);
    assert h[..148] == f && f[..100] == NameField(name) && f[124..136] == Octal(12, len);
    assert h[..100] == f[..100] && h[124..136] == f[124..136];
    var b := Back();
    assert h[156..] == b && b[0] == ZERO && b[101..109] == USTAR;
    assert h[257..265] == b[101..109];
  }

  method AddUp(h: seq<byte>) returns (sum: nat)
    ensures sum == Sum(h)
  {
    sum := 0;
    var i := 0;
    while i < |h|
      invariant i <= |h| && sum == Sum(h[..i])
    {
      assert h[..i + 1][..i] == h[..i];
      sum := sum + h[i] as int;
      i := i + 1;
    }
    assert h[..i] == h;
  }

  lemma {:induction false} SpacesSum(n: nat)
    ensures Sum(seq(n, _ => SPACE)) == 32 * n
  {
    if n > 0 {
      SpacesSum(n - 1);
      assert seq(n, _ => SPACE)[..n - 1] == seq(n - 1, _ => SPACE);
    }
  }

  lemma SumWithSpaces(front: seq<byte>, back: seq<byte>)
    ensures Sum(front + seq(8, _ => SPACE) + back) == Sum(front) + 256 + Sum(back)
  {
    SumConcat(front + seq(8, _ => SPACE), back);
    SumConcat(front, seq(8, _ => SPACE));
    SpacesSum(8);
  }

  method BuildFront(name: seq<byte>, len: nat) returns (front: seq<byte>)
    ensures front == Front(name, len)
  {
    var mode := WriteOctal(8, 420);
    var uid := WriteOctal(8, 0);
    var gid := WriteOctal(8, 0);
    var size := WriteOctal(12, len);
    var mtime := WriteOctal(12, 0);
    front := NameField(name) + (mode + uid + gid) + size + mtime;
  }

  method BuildHeader(name: seq<byte>, len: nat) returns (h: seq<byte>)
    ensures h == Header(name, len)
  {
    var front := BuildFront(name, len);
    var back := [ZERO] + Zeros(100) + USTAR + Zeros(247);
    var sum := AddUp(front + seq(8, _ => SPACE) + back);
    SumWithSpaces(front, back);
    var field := WriteOctal(7, sum);
    h := front + (field + [SPACE]) + back;
  }

  // ---- Reading ----

  /** A block where a header should be: the end of the archive, something unacceptable, or a member. */
  datatype Head = Stop | Refused | Taken(name: seq<byte>, kind: byte, size: nat)

  predicate ZeroBlock(b: seq<byte>) {
    forall i :: 0 <= i < |b| ==> b[i] == 0
  }

  /** The prefix field, if used, goes before the name; the whole is cut to 255 bytes. */
  function NameOf(h: seq<byte>): seq<byte>
    requires |h| == BLOCK
  {
    var name := CStr(h[..100]);
    if h[345] == 0 then name
    else
      var full := CStr(h[345..500]) + [47] + name;
      if |full| > 255 then full[..255] else full
  }

  function SizeOf(h: seq<byte>): nat
    requires |h| == BLOCK
  {
    Parse(h[124..136], 0)
  }

  function KindOf(h: seq<byte>): byte
    requires |h| == BLOCK
  {
    if h[156] == 0 then ZERO else h[156]
  }

  function ReadHead(h: seq<byte>): Head {
    if |h| != BLOCK then Refused
    else if ZeroBlock(h) then Stop
    else if SizeOf(h) > SIZE_LIMIT || Parse(h[SUM_AT..SUM_END], 0) != Checksum(h) then Refused
    else Taken(NameOf(h), KindOf(h), SizeOf(h))
  }

  /** A header that is taken has a right checksum, its own field counted as spaces, and an acceptable size. */
  lemma TakenIsChecked(h: seq<byte>)
    requires ReadHead(h).Taken?
    ensures |h| == BLOCK && !ZeroBlock(h) && ReadHead(h).size <= 0x1000_0000
    ensures Parse(h[148..156], 0) == Sum(h[..148]) + 8 * 32 + Sum(h[156..])
  {
  }

  // ---- What is written is read back ----

  lemma Slice(a: seq<byte>, b: seq<byte>, c: seq<byte>)
    ensures (a + b + c)[|a|..|a| + |b|] == b
  {
  }

  lemma HeaderParts(name: seq<byte>, len: nat)
    ensures var h := Header(name, len);
            && h[..SUM_AT] == Front(name, len) && h[SUM_AT..SUM_END] == SumField(HeaderSum(name, len))
            && h[SUM_END..] == Back()
  {
  }

  lemma FrontParts(name: seq<byte>, len: nat)
    ensures Front(name, len)[..100] == NameField(name) && Front(name, len)[124..136] == Octal(12, len)
  {
    var a, b, c := NameField(name) + Access(), Octal(12, len), Octal(12, 0);
    Slice(a, b, c);
    assert a[..100] == NameField(name);
  }

  lemma BackParts()
    ensures Back()[0] == ZERO && Back()[345 - SUM_END] == 0
  {
    var a := [ZERO] + Zeros(100) + USTAR;
    assert |a| == 109 && Back() == a + Zeros(247);
    assert Back()[345 - SUM_END] == Zeros(247)[80];
  }

  lemma HeaderFields(name: seq<byte>, len: nat)
    ensures var h := Header(name, len);
            && h[..100] == NameField(name) && h[124..136] == Octal(12, len)
            && h[156] == ZERO && h[345] == 0
  {
    var h := Header(name, len);
    HeaderParts(name, len);
    FrontParts(name, len);
    BackParts();
    assert h[..100] == h[..SUM_AT][..100] && h[124..136] == h[..SUM_AT][124..136];
    assert h[156] == h[SUM_END..][0] && h[345] == h[SUM_END..][345 - SUM_END];
  }

  lemma NameReadsBack(name: seq<byte>)
    requires |name| <= 99 && 0 !in name
    ensures CStr(NameField(name)) == name
  {
    CStrOf(name, Zeros(100 - |name|));
  }

  lemma SizeReadsBack(len: nat)
    requires len < TWO_32
    ensures Parse(Octal(12, len), 0) == len
  {
    ElevenDigits(len);
    OctalReadsBack(12, len, []);
    assert Octal(12, len) + [] == Octal(12, len);
  }

  lemma SumReadsBack(name: seq<byte>, len: nat)
    ensures var h := Header(name, len); Parse(h[SUM_AT..SUM_END], 0) == Checksum(h)
  {
    HeaderParts(name, len);
    SixDigits(HeaderSum(name, len));
    OctalReadsBack(7, HeaderSum(name, len), [SPACE]);
  }

  /** A header says what it was written for. */
  lemma HeaderReadsBack(h: seq<byte>, name: seq<byte>, len: nat)
    requires |name| <= 99 && 0 !in name && len < TWO_32 && h == Header(name, len)
    ensures NameOf(h) == name && SizeOf(h) == len && KindOf(h) == ZERO && !ZeroBlock(h)
    ensures Parse(h[SUM_AT..SUM_END], 0) == Checksum(h)
  {
    HeaderFields(name, len);
    NameReadsBack(name);
    SizeReadsBack(len);
    SumReadsBack(name, len);
  }

  lemma HeadReadsBack(name: seq<byte>, len: nat)
    requires |name| <= 99 && 0 !in name && len <= SIZE_LIMIT
    ensures ReadHead(Header(name, len)) == Taken(name, ZERO, len)
  {
    HeaderReadsBack(Header(name, len), name, len);
  }
}
