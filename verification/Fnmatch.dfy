/** The wildcard matcher of newlib/libgloss/adros/posix_stubs.c. */
module Fnmatch {

  const FNM_NOMATCH := 1

  /** `*` stands for any string, `?` for any one character, everything else for itself. */
  predicate Matches(p: string, s: string)
    decreases |p| + |s|
  {
    if p == "" then s == ""
    else if p[0] == '*' then Matches(p[1..], s) || (s != "" && Matches(p, s[1..]))
    else s != "" && (p[0] == '?' || p[0] == s[0]) && Matches(p[1..], s[1..])
  }

  /** `Matches` on what is left of both strings. */
  ghost predicate From(p: string, i: nat, s: string, j: nat)
    requires i <= |p| && j <= |s|
  {
    Matches(p[i..], s[j..])
  }

  lemma Unfold(p: string, i: nat, s: string, j: nat)
    requires i <= |p| && j <= |s|
    ensures i == |p| ==> (From(p, i, s, j) <==> j == |s|)
    ensures i < |p| && p[i] == '*' ==> (From(p, i, s, j) <==> From(p, i + 1, s, j) || (j < |s| && From(p, i, s, j + 1)))
    ensures i < |p| && p[i] != '*' ==>
              (From(p, i, s, j) <==> j < |s| && (p[i] == '?' || p[i] == s[j]) && From(p, i + 1, s, j + 1))
  {
    if i < |p| {
      assert p[i..][1..] == p[i + 1..];
    }
    if j < |s| {
      assert s[j..][1..] == s[j + 1..];
    }
  }

  /** A star may absorb any stretch before the place where it matches. */
  lemma {:induction false} StarAbsorbs(p: string, i: nat, s: string, j: nat, k: nat)
    requires i < |p| && p[i] == '*' && j <= k <= |s| && From(p, i, s, k)
    ensures From(p, i, s, j)
    decreases k - j
  {
    if j < k {
      StarAbsorbs(p, i, s, j + 1, k);
      Unfold(p, i, s, j);
    }
  }

  /** If a star matches, what follows it matches at some later place. */
  lemma {:induction false} StarEnds(p: string, i: nat, s: string, j: nat) returns (k: nat)
    requires i < |p| && p[i] == '*' && j <= |s| && From(p, i, s, j)
    ensures j <= k <= |s| && From(p, i + 1, s, k)
    decreases |s| - j
  {
    Unfold(p, i, s, j);
    if From(p, i + 1, s, j) {
      k := j;
    } else {
      k := StarEnds(p, i, s, j + 1);
    }
  }

  /** A stretch of pattern without stars takes as many characters as it is long. */
  lemma {:induction false} Stretch(p: string, i: nat, i': nat, s: string, k: nat)
    requires i <= i' <= |p| && k <= |s| && (forall x :: i <= x < i' ==> p[x] != '*') && From(p, i, s, k)
    ensures k + i' - i <= |s| && From(p, i', s, k + i' - i)
    decreases i' - i
  {
    if i < i' {
      Unfold(p, i, s, k);
      Stretch(p, i + 1, i', s, k + 1);
    }
  }

  /** Some later choice for the star just before `q` leads to a match. */
  ghost predicate Later(p: string, q: nat, s: string, j: nat)
    requires 1 <= q <= |p| && j <= |s|
  {
    j < |s| && From(p, q - 1, s, j + 1)
  }

  /**
   * Committing to the newest star loses nothing: if moving an older star further right could succeed, then so
   * can the rest of the pattern from the newest star, right where the matcher now stands.
   */
  lemma NewestStarSuffices(p: string, q: nat, i: nat, s: string, start: nat, j: nat)
    requires 1 <= q <= i < |p| && p[q - 1] == '*' && p[i] == '*' && start <= j < |s| && i - q == j - start
    requires forall x :: q <= x < i ==> p[x] != '*'
    requires Later(p, q, s, start)
    ensures From(p, i, s, j)
  {
    var k := StarEnds(p, q - 1, s, start + 1);
    Stretch(p, q, i, s, k);
    StarAbsorbs(p, i, s, j, k + i - q);
  }

  /** With the subject used up, moving the star further right leaves too few characters. */
  lemma TooShort(p: string, q: nat, i: nat, s: string, start: nat)
    requires 1 <= q <= i <= |p| && p[q - 1] == '*' && start <= |s| && i - q == |s| - start
    requires forall x :: q <= x < i ==> p[x] != '*'
    ensures !Later(p, q, s, start)
  {
    if Later(p, q, s, start) {
      var k := StarEnds(p, q - 1, s, start + 1);
      Stretch(p, q, i, s, k);
    }
  }

  lemma {:induction false} OnlyStars(p: string, i: nat, i': nat, s: string)
    requires i <= i' <= |p| && forall x :: i <= x < i' ==> p[x] == '*'
    ensures From(p, i, s, |s|) == From(p, i', s, |s|)
    decreases i' - i
  {
    if i < i' {
      Unfold(p, i, s, |s|);
      OnlyStars(p, i + 1, i', s);
    }
  }

  /** `fnmatch`: zero exactly for the strings in the language of the pattern. */
  method Fnmatch(pattern: string, str: string) returns (r: int)
    ensures r == if Matches(pattern, str) then 0 else FNM_NOMATCH
  {
    var p, s := 0, 0;
    var starP, starS := 0, 0; // starP == 0: no star seen yet
    assert From(pattern, 0, str, 0) == Matches(pattern, str) by {
      assert pattern[0..] == pattern && str[0..] == str;
    }
    while s < |str|
      invariant 0 <= starP <= p <= |pattern| && 0 <= starS <= s <= |str|
      invariant starP == 0 ==> Matches(pattern, str) == From(pattern, p, str, s)
      invariant starP > 0 ==> pattern[starP - 1] == '*' && p - starP == s - starS
      invariant starP > 0 ==> forall x :: starP <= x < p ==> pattern[x] != '*'
      invariant starP > 0 ==> Matches(pattern, str) == (From(pattern, p, str, s) || Later(pattern, starP, str, starS))
      decreases |pattern| - starP, |str| - starS, |str| - s
    {
      Unfold(pattern, p, str, s);
      if p < |pattern| && pattern[p] == '*' {
        if starP > 0 && Later(pattern, starP, str, starS) {
          NewestStarSuffices(pattern, starP, p, str, starS, s);
        }
        p := p + 1;
        starP, starS := p, s;
        continue;
      }
      if p < |pattern| && (pattern[p] == '?' || pattern[p] == str[s]) {
        p, s := p + 1, s + 1;
        continue;
      }
      if starP > 0 {
        Unfold(pattern, starP - 1, str, starS + 1);
        p, starS := starP, starS + 1;
        s := starS;
        continue;
      }
      return FNM_NOMATCH;
    }
    if starP > 0 {
      TooShort(pattern, starP, p, str, starS);
    }
    ghost var q := p;
    while p < |pattern| && pattern[p] == '*'
      invariant q <= p <= |pattern|
      invariant forall x :: q <= x < p ==> pattern[x] == '*'
    {
      p := p + 1;
    }
    OnlyStars(pattern, q, p, str);
    Unfold(pattern, p, str, |str|);
    r := if p < |pattern| then FNM_NOMATCH else 0;
  }
}
