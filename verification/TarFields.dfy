/** The fields of a tar header, written by tools/mkinitrd.c and read by src/drivers/initrd.c. */
module TarFields {
  import opened Words

  const ZERO: byte := 48
  const SEVEN: byte := 55
  const SPACE: byte := 32

  // ---- Octal numbers ----

  /** The last `w` octal digits of `v`, most significant first. */
  function Digits(w: nat, v: nat): (r: seq<byte>)
    ensures |r| == w
  {
    if w == 0 then [] else Digits(w - 1, v / 8) + [(48 + v % 8) as byte]
  }

  /** `v` has at most `w` octal digits. */
  predicate Fits(w: nat, v: nat) {
    if w == 0 then v == 0 else Fits(w - 1, v / 8)
  }

  /** A field of `n` bytes: digits and a NUL. */
  function Octal(n: nat, v: nat): (r: seq<byte>)
    requires n > 0
    ensures |r| == n
  {
    Digits(n - 1, v) + [0]
  }

  lemma {:induction false} ZeroDigits(w: nat)
    ensures Digits(w, 0) == seq(w, _ => ZERO)
  {
    if w > 0 {
      ZeroDigits(w - 1);
    }
  }

  lemma DigitStep(all: seq<byte>, i: nat, u: nat, rest: seq<byte>)
    requires all == Digits(i + 1, u) + rest
    ensures all == Digits(i, u / 8) + ([(48 + u % 8) as byte] + rest)
  {
  }

  method WriteOctal(n: nat, v: nat) returns (out: seq<byte>)
    requires n >= 2
    ensures out == Octal(n, v)
  {
    out := seq(n, _ => ZERO);
    out := out[n - 1 := 0];
    var i, u := n - 2, v;
    ghost var all, rest := Digits(n - 1, v), [];
    while true
      invariant 0 <= i <= n - 2 && |rest| == n - 2 - i
      invariant out == seq(i + 1, _ => ZERO) + rest + [0]
      invariant all == Digits(i + 1, u) + rest
      decreases i
    {
      DigitStep(all, i, u, rest);
      rest := [(48 + u % 8) as byte] + rest;
      out := out[i := (48 + u % 8) as byte];
      assert out == seq(i, _ => ZERO) + rest + [0];
      u := u / 8;
      if u == 0 || i == 0 {
        break;
      }
      i := i - 1;
    }
    ZeroDigits(i);
    assert i == 0 ==> Digits(i, u) == seq(0, _ => ZERO);
  }

  /** What the reader makes of a field, in 32 bits: it stops at a NUL and skips anything that is no octal digit. */
  function Parse(s: seq<byte>, v: nat): nat {
    if s == [] || s[0] == 0 then v
    else if s[0] < ZERO || s[0] > SEVEN then Parse(s[1..], v)
    else Parse(s[1..], (v * 8 + s[0] as int - 48) % TWO_32)
  }

  method ParseOctal(s: seq<byte>) returns (v: nat)
    ensures v == Parse(s, 0)
  {
    v := 0;
    var i := 0;
    while i < |s|
      invariant i <= |s| && Parse(s, 0) == Parse(s[i..], v)
    {
      assert s[i..][1..] == s[i + 1..];
      if s[i] == 0 {
        break;
      }
      if ZERO <= s[i] <= SEVEN {
        v := (v * 8 + s[i] as int - 48) % TWO_32;
      }
      i := i + 1;
    }
  }

  lemma {:induction false} ParseDigits(w: nat, v: nat, t: seq<byte>)
    requires Fits(w, v) && v < TWO_32
    ensures Parse(Digits(w, v) + t, 0) == Parse(t, v)
  {
    if w == 0 {
      assert Digits(w, v) + t == t;
    } else {
      var d := (48 + v % 8) as byte;
      ParseDigits(w - 1, v / 8, [d] + t);
      assert Digits(w, v) + t == Digits(w - 1, v / 8) + ([d] + t);
      assert ([d] + t)[1..] == t;
    }
  }

  /** A number that fits into its field is read back, whatever follows the NUL. */
  lemma OctalReadsBack(n: nat, v: nat, t: seq<byte>)
    requires n > 0 && Fits(n - 1, v) && v < TWO_32
    ensures Parse(Octal(n, v) + t, 0) == v
  {
    assert Octal(n, v) + t == Digits(n - 1, v) + ([0] + t);
    ParseDigits(n - 1, v, [0] + t);
  }

  lemma {:induction false} FitsMore(w: nat, v: nat, k: nat)
    requires Fits(w, v)
    ensures Fits(w + k, v)
  {
    if w == 0 {
      if k > 0 {
        FitsMore(0, 0, k - 1);
      }
    } else {
      FitsMore(w - 1, v / 8, k);
    }
  }

  lemma SixDigits(v: nat)
    requires v < 0x4_0000
    ensures Fits(6, v)
  {
    var a := v / 8;
    var b := a / 8;
    var c := b / 8;
    var d := c / 8;
    var e := d / 8;
    assert e / 8 == 0;
    assert Fits(1, e) && Fits(2, d) && Fits(3, c) && Fits(4, b) && Fits(5, a);
  }

  lemma ElevenDigits(v: nat)
    requires v < TWO_32
    ensures Fits(11, v)
  {
    var a := v / 0x8000;
    SixDigits(a);
    assert v / 8 / 8 / 8 / 8 / 8 == a;
    var x1 := v / 8;
    var x2 := x1 / 8;
    var x3 := x2 / 8;
    var x4 := x3 / 8;
    assert Fits(7, x4) && Fits(8, x3) && Fits(9, x2) && Fits(10, x1);
  }

  // ---- Checksums ----

  function Sum(s: seq<byte>): (r: nat)
    ensures r <= 255 * |s|
  {
    if s == [] then 0 else Sum(s[..|s| - 1]) + s[|s| - 1] as int
  }

  lemma {:induction false} SumConcat(a: seq<byte>, b: seq<byte>)
    ensures Sum(a + b) == Sum(a) + Sum(b)
  {
    if b == [] {
      assert a + b == a;
    } else {
      SumConcat(a, b[..|b| - 1]);
      assert (a + b)[..|a + b| - 1] == a + b[..|b| - 1];
    }
  }

  const BLOCK := 512
  const SUM_AT := 148
  const SUM_END := 156

  /** The checksum of a header: its own field counts as eight spaces. */
  function Checksum(b: seq<byte>): nat
    requires |b| == BLOCK
  {
    Sum(b[..SUM_AT]) + 256 + Sum(b[SUM_END..])
  }

  /** As the reader adds it up. */
  method ReadChecksum(b: seq<byte>) returns (sum: nat)
    requires |b| == BLOCK
    ensures sum == Checksum(b)
  {
    sum := 0;
    var i := 0;
    while i < BLOCK
      invariant 0 <= i <= BLOCK
      invariant i <= SUM_AT ==> sum == Sum(b[..i])
      invariant SUM_AT <= i <= SUM_END ==> sum == Sum(b[..SUM_AT]) + 32 * (i - SUM_AT)
      invariant SUM_END <= i ==> sum == Sum(b[..SUM_AT]) + 256 + Sum(b[SUM_END..i])
    {
      if i < SUM_AT {
        assert b[..i + 1][..i] == b[..i];
      } else if i >= SUM_END {
        assert b[SUM_END..i + 1][..i - SUM_END] == b[SUM_END..i];
      }
      sum := sum + if SUM_AT <= i < SUM_END then 32 else b[i] as int;
      i := i + 1;
    }
    assert b[SUM_END..BLOCK] == b[SUM_END..];
  }

  // ---- Names ----

  /** The bytes up to the first NUL. */
  function CStr(s: seq<byte>): (r: seq<byte>)
    ensures |r| <= |s| && 0 !in r
  {
    if s == [] || s[0] == 0 then [] else [s[0]] + CStr(s[1..])
  }

  lemma {:induction false} CStrOf(a: seq<byte>, t: seq<byte>)
    requires 0 !in a && (t == [] || t[0] == 0)
    ensures CStr(a + t) == a
  {
    if a == [] {
      assert a + t == t;
    } else {
      CStrOf(a[1..], t);
      assert (a + t)[1..] == a[1..] + t;
      assert a[0] in a;
    }
  }
}
