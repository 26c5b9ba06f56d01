/** Path names: taken apart at the slashes as src/drivers/initrd.c does, and put together again. */
module InitrdPaths {
  import opened Words

  type Name = seq<byte>
  type Path = seq<Name>

  const SLASH: byte := 47
  const DOT: byte := 46

  /** The bytes before the first slash. */
  function FirstPart(s: Name): (r: Name)
    ensures |r| <= |s| && (s != [] && s[0] != SLASH ==> |r| > 0)
  {
    if s == [] || s[0] == SLASH then [] else [s[0]] + FirstPart(s[1..])
  }

  function Skip(s: Name): (r: Name)
    ensures |r| <= |s| && (r != [] ==> r[0] != SLASH)
  {
    if s != [] && s[0] == SLASH then Skip(s[1..]) else s
  }

  /** A component is kept in a buffer of 128 bytes. */
  function Clip(s: Name): (r: Name)
    ensures |s| <= 127 ==> r == s
  {
    if |s| > 127 then s[..127] else s
  }

  /** The components of a path, empty ones left out. */
  function Split(s: Name): Path
    decreases |s|
  {
    var t := Skip(s);
    if t == [] then [] else [Clip(FirstPart(t))] + Split(t[|FirstPart(t)|..])
  }

  /** A component that can be written into a path and read back. */
  predicate Plain(p: Name) {
    0 < |p| <= 127 && SLASH !in p && 0 !in p
  }

  function Join(q: Path): Name {
    if q == [] then [] else if |q| == 1 then q[0] else q[0] + [SLASH] + Join(q[1..])
  }

  lemma {:induction false} FirstPartOf(p: Name, t: Name)
    requires SLASH !in p && (t == [] || t[0] == SLASH)
    ensures FirstPart(p + t) == p
  {
    if p == [] {
      assert p + t == t;
    } else {
      FirstPartOf(p[1..], t);
      assert (p + t)[1..] == p[1..] + t && p[0] in p;
    }
  }

  lemma SplitFirst(p: Name, t: Name)
    requires Plain(p) && (t == [] || t[0] == SLASH)
    ensures Split(p + t) == [p] + Split(t)
  {
    FirstPartOf(p, t);
    assert p[0] in p;
    assert Skip(p + t) == p + t && (p + t)[|p|..] == t;
  }

  lemma {:induction false} SplitJoin(q: Path)
    requires forall i :: 0 <= i < |q| ==> Plain(q[i])
    ensures Split(Join(q)) == q
  {
    if |q| == 1 {
      SplitFirst(q[0], []);
      assert q[0] + [] == q[0];
    } else if |q| > 1 {
      var rest := Join(q[1..]);
      SplitJoin(q[1..]);
      SplitFirst(q[0], [SLASH] + rest);
      assert q[0] + [SLASH] + rest == q[0] + ([SLASH] + rest);
      assert ([SLASH] + rest)[1..] == rest;
      assert Skip([SLASH] + rest) == Skip(rest);
    }
  }

  // ---- What happens to a name before it is taken apart ----

  function StripDot(s: Name): Name {
    if |s| >= 2 && s[0] == DOT && s[1] == SLASH then s[2..] else s
  }

  predicate Trailing(s: Name) {
    s != [] && s[|s| - 1] == SLASH
  }

  function Trim(s: Name): Name {
    if Trailing(s) then s[..|s| - 1] else s
  }

  /** Paths whose written form has nothing to strip. */
  predicate Normal(q: Path) {
    q != [] && (forall i :: 0 <= i < |q| ==> Plain(q[i])) && (|q| > 1 ==> q[0] != [DOT])
  }

  lemma {:induction false} JoinEnds(q: Path)
    requires q != [] && forall i :: 0 <= i < |q| ==> Plain(q[i])
    ensures Join(q) != [] && !Trailing(Join(q)) && 0 !in Join(q)
  {
    if |q| == 1 {
      assert q[0][|q[0]| - 1] in q[0];
    } else {
      JoinEnds(q[1..]);
      var rest := Join(q[1..]);
      assert Join(q)[|Join(q)| - 1] == rest[|rest| - 1];
    }
  }

  /** A normal path goes through unchanged. */
  lemma NormalSurvives(q: Path)
    requires Normal(q)
    ensures StripDot(Join(q)) == Join(q) && !Trailing(Join(q)) && Join(q) != [] && 0 !in Join(q) && Split(Join(q)) == q
  {
    JoinEnds(q);
    SplitJoin(q);
    var s, a := Join(q), q[0];
    assert s[0] == a[0];
    if |a| > 1 {
      assert s[1] == a[1] && a[1] in a;
    } else {
      assert a == [a[0]];
    }
  }
}
