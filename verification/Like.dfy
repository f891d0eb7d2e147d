/**
LIKE matching. `%` stands for any run of characters, `_` for one, and a backslash takes
the next character literally. The matcher gives up a whole search once the rest of the
pattern is known to match nowhere further on.
*/
module Like {

  /** ASCII lower case. */
  function Lower(c: char): char { if 'A' <= c <= 'Z' then c - 'A' + 'a' else c }

  predicate Same(a: char, b: char, noCase: bool) { if noCase then Lower(a) == Lower(b) else a == b }

  const UPPER := "ABCDEFGHIJKLMNOPQRSTUVWXYZ"
  const LOWER := "abcdefghijklmnopqrstuvwxyz"

  /** Without regard to case a letter is the same as the one at its place in the other alphabet, and nothing else is. */
  lemma SameMeans(a: char, b: char)
    ensures Same(a, b, false) <==> a == b
    ensures Same(a, b, true) <==>
      a == b || exists i :: 0 <= i < 26 && ((a == UPPER[i] && b == LOWER[i]) || (a == LOWER[i] && b == UPPER[i]))
  {
    Letters();
    if 'A' <= a <= 'Z' {
      var i := a as int - 'A' as int;
      assert a == UPPER[i] && Lower(a) == LOWER[i];
    }
    if 'A' <= b <= 'Z' {
      var i := b as int - 'A' as int;
      assert b == UPPER[i] && Lower(b) == LOWER[i];
    }
  }

  lemma Letters()
    ensures |UPPER| == |LOWER| == 26
    ensures forall i :: 0 <= i < 26 ==> UPPER[i] as int == 'A' as int + i && LOWER[i] as int == 'a' as int + i
  {
  }

  /** The character at i of a string that ends with NUL. */
  function CharAt(p: string, i: nat): char { if i < |p| then p[i] else '\0' }

  /** Escape takes the next character when there is one. */
  predicate Escaped(p: string) { |p| >= 2 && p[0] == '\\' }

  /** What a pattern means. */
  ghost predicate Matches(p: string, s: string, noCase: bool)
    decreases |p|
  {
    if p == [] then s == []
    else if p[0] == '%' then exists i :: 0 <= i <= |s| && Matches(p[1..], s[i..], noCase)
    else if p[0] == '_' then s != [] && Matches(p[1..], s[1..], noCase)
    else if Escaped(p) then s != [] && Same(p[1], s[0], noCase) && Matches(p[2..], s[1..], noCase)
    else s != [] && Same(p[0], s[0], noCase) && Matches(p[1..], s[1..], noCase)
  }

  /** What each part of a pattern stands for, in front of any pattern. */
  lemma PatternMeans(c: char, p: string, s: string, noCase: bool)
    ensures Matches("", s, noCase) <==> s == ""
    ensures Matches("%" + p, s, noCase) <==> exists i :: 0 <= i <= |s| && Matches(p, s[i..], noCase)
    ensures Matches("_" + p, s, noCase) <==> s != "" && Matches(p, s[1..], noCase)
    ensures Matches("\\" + [c] + p, s, noCase) <==> s != "" && Same(c, s[0], noCase) && Matches(p, s[1..], noCase)
    ensures c !in {'%', '_', '\\'} ==>
      (Matches([c] + p, s, noCase) <==> s != "" && Same(c, s[0], noCase) && Matches(p, s[1..], noCase))
  {
    assert ("%" + p)[1..] == p && ("_" + p)[1..] == p && ("\\" + [c] + p)[2..] == p && ([c] + p)[1..] == p;
  }

  /** A backslash at the end of a pattern stands for itself. */
  lemma LastBackslash(s: string, noCase: bool)
    ensures Matches("\\", s, noCase) <==> |s| == 1 && Same('\\', s[0], noCase)
  {
    assert "\\"[1..] == "";
  }

  /** The end of s from i on matches p. */
  ghost predicate MatchesAt(p: string, s: string, i: nat, noCase: bool) {
    i <= |s| && Matches(p, s[i..], noCase)
  }

  /** No end of s matches p, the empty one included. */
  ghost predicate Nowhere(p: string, s: string, noCase: bool) {
    forall i: nat :: !MatchesAt(p, s, i, noCase)
  }

  ghost predicate AllPercent(p: string) { forall i :: 0 <= i < |p| ==> p[i] == '%' }

  lemma {:induction false} MatchesEmpty(p: string, noCase: bool)
    ensures Matches(p, [], noCase) <==> AllPercent(p)
    decreases |p|
  {
    var e: string := [];
    if p != [] && p[0] == '%' {
      MatchesEmpty(p[1..], noCase);
      assert e[0..] == e;
      assert AllPercent(p) <==> AllPercent(p[1..]) by {
        assert p == [p[0]] + p[1..];
      }
    }
  }

  /** Two percent signs are as good as one. */
  lemma PercentTwice(p: string, s: string, noCase: bool)
    requires |p| >= 2 && p[0] == '%' && p[1] == '%'
    ensures Matches(p, s, noCase) <==> Matches(p[1..], s, noCase)
  {
    var q := p[1..];
    assert q[0] == '%' && q[1..] == p[2..];
    if Matches(p, s, noCase) {
      var i :| 0 <= i <= |s| && Matches(q, s[i..], noCase);
      var j :| 0 <= j <= |s[i..]| && Matches(q[1..], s[i..][j..], noCase);
      assert s[i..][j..] == s[i + j..];
    }
    if Matches(q, s, noCase) {
      assert s[0..] == s;
    }
  }

  // ----- a step that takes one character of the subject

  /** How much of the pattern a step takes that is not a percent sign. */
  function Width(p: string): nat
    requires p != []
    ensures Width(p) <= |p|
  {
    if Escaped(p) then 2 else 1
  }

  /** The first step of a pattern fits a character. */
  predicate Fits(p: string, c: char, noCase: bool)
    requires p != [] && p[0] != '%'
  {
    p[0] == '_' || Same(if Escaped(p) then p[1] else p[0], c, noCase)
  }

  lemma OneStep(p: string, s: string, noCase: bool)
    requires p != [] && p[0] != '%'
    ensures Matches(p, s, noCase) <==> s != [] && Fits(p, s[0], noCase) && Matches(p[Width(p)..], s[1..], noCase)
  {
  }

  /** Wherever p0 matches an end of s0, p matches what is n characters further on. */
  ghost predicate Reduced(p0: string, s0: string, p: string, n: nat, noCase: bool) {
    forall i :: 0 <= i <= |s0| && Matches(p0, s0[i..], noCase) ==> i + n <= |s0| && Matches(p, s0[i + n..], noCase)
  }

  lemma ReducedStep(p0: string, s0: string, p: string, n: nat, noCase: bool)
    requires Reduced(p0, s0, p, n, noCase) && p != [] && p[0] != '%'
    ensures Reduced(p0, s0, p[Width(p)..], n + 1, noCase)
  {
    forall i | 0 <= i <= |s0| && Matches(p0, s0[i..], noCase)
      ensures i + n + 1 <= |s0| && Matches(p[Width(p)..], s0[i + n + 1..], noCase)
    {
      OneStep(p, s0[i + n..], noCase);
      assert s0[i + n..][1..] == s0[i + n + 1..];
    }
  }

  ghost predicate SameMeaning(p: string, q: string, noCase: bool) {
    forall s {:trigger Matches(p, s, noCase)} :: Matches(p, s, noCase) <==> Matches(q, s, noCase)
  }

  lemma OnePercent(p0: string, p: string, noCase: bool)
    requires SameMeaning(p0, p, noCase) && |p| >= 2 && p[0] == '%' && p[1] == '%'
    ensures SameMeaning(p0, p[1..], noCase)
  {
    forall s
      ensures Matches(p0, s, noCase) <==> Matches(p[1..], s, noCase)
    {
      PercentTwice(p, s, noCase);
    }
  }

  lemma PercentMeans(p: string, s: string, noCase: bool)
    requires p != [] && p[0] == '%'
    ensures Matches(p, s, noCase) <==> exists i :: MatchesAt(p[1..], s, i, noCase)
  {
    if i: nat :| MatchesAt(p[1..], s, i, noCase) {
    }
    if i :| 0 <= i <= |s| && p != [] && p[0] == '%' && Matches(p[1..], s[i..], noCase) {
      assert MatchesAt(p[1..], s, i, noCase);
    }
  }

  lemma PercentNowhere(p: string, s: string, noCase: bool)
    requires p != [] && p[0] == '%' && Nowhere(p[1..], s, noCase)
    ensures Nowhere(p, s, noCase)
  {
    forall m: nat
      ensures !MatchesAt(p, s, m, noCase)
    {
      if m <= |s| {
        PercentMeans(p, s[m..], noCase);
        forall j: nat
          ensures !MatchesAt(p[1..], s[m..], j, noCase)
        {
          if j <= |s[m..]| {
            assert s[m..][j..] == s[m + j..] && !MatchesAt(p[1..], s, m + j, noCase);
          }
        }
      }
    }
  }

  /** When the rest of a pattern matches nowhere, the pattern matches nowhere. */
  lemma NowhereBefore(p0: string, s0: string, p: string, n: nat, noCase: bool)
    requires Reduced(p0, s0, p, n, noCase) && n <= |s0| && Nowhere(p, s0[n..], noCase)
    ensures Nowhere(p0, s0, noCase) && !Matches(p0, s0, noCase)
  {
    forall i: nat
      ensures !MatchesAt(p0, s0, i, noCase)
    {
      if i + n <= |s0| {
        assert s0[n..][i..] == s0[i + n..] && !MatchesAt(p, s0[n..], i, noCase);
      }
    }
    assert s0[0..] == s0 && !MatchesAt(p0, s0, 0, noCase);
  }

  lemma FromStart(p0: string, s0: string, p: string, n: nat, noCase: bool)
    requires Reduced(p0, s0, p, n, noCase) && Matches(p0, s0, noCase)
    ensures n <= |s0| && Matches(p, s0[n..], noCase)
  {
    assert s0[0..] == s0 && s0[0 + n..] == s0[n..];
  }

  /** At the end of the subject a percent sign is as good as nothing. */
  lemma PercentAtEnd(p0: string, s0: string, p: string, noCase: bool)
    requires Reduced(p0, s0, p, |s0|, noCase) && p != [] && p[0] == '%'
    ensures Reduced(p0, s0, p[1..], |s0|, noCase) && (Matches(p[1..], [], noCase) <==> Matches(p, [], noCase))
  {
    MatchesEmpty(p, noCase);
    MatchesEmpty(p[1..], noCase);
    assert p == [p[0]] + p[1..];
    assert s0[|s0|..] == [];
  }

  // ----- the matcher

  /**
  Matches s against p. `skip` comes back set when p matches no end of s at all, so that
  searches further out need not go on.
  */
  method Like(s0: string, p0: string, noCase: bool) returns (r: bool, skip: bool)
    ensures s0 == [] ==> (r <==> p0 == []) && !skip
    ensures s0 != [] ==> (r <==> Matches(p0, s0, noCase))
    ensures skip ==> !r && Nowhere(p0, s0, noCase)
    decreases |p0|, 1
  {
    var s, p := s0, p0;
    ghost var n := 0;
    assert s0[0..] == s0;
    while p != [] && s != []
      invariant n <= |s0| && s == s0[n..] && |p| <= |p0|
      invariant Reduced(p0, s0, p, n, noCase)
      invariant Matches(p, s, noCase) ==> Matches(p0, s0, noCase)
      invariant s0 == [] ==> p == p0
      invariant s0 != [] && s == [] ==> p == [] || p[0] != '%'
      decreases |p|
    {
      if p[0] == '%' {
        r, skip := Percent(s, p, noCase);
        if skip {
          NowhereBefore(p0, s0, p, n, noCase);
        }
        return;
      }
      OneStep(p, s, noCase);
      ReducedStep(p0, s0, p, n, noCase);
      var c := s[0];
      if p[0] != '_' {
        var literal := if |p| >= 2 && p[0] == '\\' then p[1] else p[0];
        if !Same(literal, c, noCase) {
          if Matches(p0, s0, noCase) {
            FromStart(p0, s0, p, n, noCase);
          }
          return false, false;
        }
      }
      p := p[if |p| >= 2 && p[0] == '\\' then 2 else 1..];
      s, n := s[1..], n + 1;
      if s == [] {
        while CharAt(p, 0) == '%'
          invariant |p| < |p0| && n == |s0| && Reduced(p0, s0, p, n, noCase)
          invariant Matches(p, s, noCase) ==> Matches(p0, s0, noCase)
          decreases |p|
        {
          PercentAtEnd(p0, s0, p, noCase);
          p := p[1..];
        }
        break;
      }
    }
    r, skip := |p| + |s| == 0, false;
    MatchesEmpty(p, noCase);
    if s0 != [] && Matches(p0, s0, noCase) {
      FromStart(p0, s0, p, n, noCase);
    }
  }

  /** A pattern that starts with a percent sign. */
  method Percent(s: string, p0: string, noCase: bool) returns (r: bool, skip: bool)
    requires s != [] && p0 != [] && p0[0] == '%'
    ensures r <==> Matches(p0, s, noCase)
    ensures skip <==> !r
    ensures !r ==> Nowhere(p0, s, noCase)
    decreases |p0|, 0
  {
    var p := p0;
    while CharAt(p, 1) == '%'
      invariant p != [] && p[0] == '%' && |p| <= |p0| && SameMeaning(p0, p, noCase)
      decreases |p|
    {
      OnePercent(p0, p, noCase);
      p := p[1..];
    }
    PercentMeans(p, s, noCase);
    if |p| == 1 {
      assert MatchesAt(p[1..], s, |s|, noCase);
      return true, false;
    }
    r, skip := AfterPercent(s, p[1..], noCase);
    if !r {
      PercentNowhere(p, s, noCase);
      SameNowhere(p0, p, s, noCase);
    }
  }

  lemma SameNowhere(p0: string, p: string, s: string, noCase: bool)
    requires SameMeaning(p0, p, noCase) && Nowhere(p, s, noCase)
    ensures Nowhere(p0, s, noCase)
  {
    forall i: nat
      ensures !MatchesAt(p0, s, i, noCase)
    {
      assert !MatchesAt(p, s, i, noCase);
    }
  }

  /** What follows a percent sign, tried at every character of s. */
  method AfterPercent(s0: string, x: string, noCase: bool) returns (r: bool, skip: bool)
    requires s0 != [] && x != [] && x[0] != '%'
    ensures r ==> !skip && exists i :: MatchesAt(x, s0, i, noCase)
    ensures !r ==> skip && Nowhere(x, s0, noCase)
    decreases |x|, 2
  {
    var s := s0;
    ghost var k := 0;
    while s != []
      invariant k <= |s0| && s == s0[k..] && forall i: nat :: i < k ==> !MatchesAt(x, s0, i, noCase)
      decreases |s|
    {
      r, skip := Like(s, x, noCase);
      if r {
        assert MatchesAt(x, s0, k, noCase);
        return true, false;
      }
      if skip {
        forall i: nat
          ensures !MatchesAt(x, s0, i, noCase)
        {
          if k <= i <= |s0| {
            assert s0[i..] == s[i - k..] && !MatchesAt(x, s, i - k, noCase);
          }
        }
        return false, true;
      }
      s, k := s[1..], k + 1;
    }
    MatchesEmpty(x, noCase);
    return false, true;
  }

  /**
  The matcher as it is called. It agrees with what the pattern means exactly unless the
  subject is empty and the pattern is made of percent signs only, which it refuses.
  */
  method StrLike(s: string, p: string, noCase: bool) returns (r: bool)
    ensures (r <==> Matches(p, s, noCase)) <==> !(s == [] && p != [] && AllPercent(p))
    ensures r ==> Matches(p, s, noCase)
  {
    var skip;
    r, skip := Like(s, p, noCase);
    MatchesEmpty(p, noCase);
  }

  /** The simplest such pattern. */
  lemma PercentMatchesEmpty(noCase: bool)
    ensures Matches("%", "", noCase) && AllPercent("%")
  {
    MatchesEmpty("%", noCase);
  }
}
