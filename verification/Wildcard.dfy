/** The glob matcher that doctest uses for every name filter. */
module Wildcard {
  import opened Bytes

  const STAR: Byte := 42
  const ANY: Byte := 63

  /** `tolower` in the C locale. */
  function ToLower(c: Byte): Byte {
    if 65 <= c <= 90 then c + 32 else c
  }

  predicate Same(a: Byte, b: Byte, caseSensitive: bool) {
    if caseSensitive then a == b else ToLower(a) == ToLower(b)
  }

  predicate MatchesOne(w: Byte, c: Byte, caseSensitive: bool) {
    w == ANY || Same(w, c, caseSensitive)
  }

  /**
   * The meaning of a pattern: `*` stands for any run of characters, `?` for any one
   * character, everything else for itself (up to case when not case sensitive).
   */
  ghost predicate Matches(wild: seq<Byte>, str: seq<Byte>, caseSensitive: bool)
    decreases wild
  {
    if wild == [] then str == []
    else if wild[0] == STAR then
      exists k :: 0 <= k <= |str| && Matches(wild[1..], str[k..], caseSensitive)
    else
      str != [] && MatchesOne(wild[0], str[0], caseSensitive) && Matches(wild[1..], str[1..], caseSensitive)
  }

  // ---- the meaning, by literal codes ----

  /** Equal, or a letter `A` to `Z` and its small one. */
  predicate SameUpToCase(a: Byte, b: Byte) {
    a == b || (65 <= a <= 90 && b == a + 32) || (65 <= b <= 90 && a == b + 32)
  }

  /** A pattern without `*` takes strings of its own length: `?` any character, the others themselves. */
  lemma {:induction false} WithoutStar(wild: seq<Byte>, str: seq<Byte>)
    requires 42 !in wild
    ensures Matches(wild, str, true) <==>
            |wild| == |str| && forall i :: 0 <= i < |wild| ==> wild[i] == 63 || wild[i] == str[i]
    ensures Matches(wild, str, false) <==>
            |wild| == |str| && forall i :: 0 <= i < |wild| ==> wild[i] == 63 || SameUpToCase(wild[i], str[i])
    decreases |wild|
  {
    if wild != [] {
      assert wild[0] in wild;
      InRest(wild);
      if str != [] {
        WithoutStar(wild[1..], str[1..]);
        ShiftedIndexes(wild, str);
      }
    }
  }

  lemma InRest(wild: seq<Byte>)
    requires wild != []
    ensures forall c :: c in wild[1..] ==> c in wild
  {
  }

  lemma ShiftedIndexes(wild: seq<Byte>, str: seq<Byte>)
    requires wild != [] && str != []
    ensures |wild| == |str| ==>
              && ((forall i :: 0 <= i < |wild| ==> wild[i] == 63 || wild[i] == str[i]) <==>
                  (wild[0] == 63 || wild[0] == str[0]) &&
                  forall i :: 0 <= i < |wild| - 1 ==> wild[1..][i] == 63 || wild[1..][i] == str[1..][i])
              && ((forall i :: 0 <= i < |wild| ==> wild[i] == 63 || SameUpToCase(wild[i], str[i])) <==>
                  (wild[0] == 63 || SameUpToCase(wild[0], str[0])) &&
                  forall i :: 0 <= i < |wild| - 1 ==> wild[1..][i] == 63 || SameUpToCase(wild[1..][i], str[1..][i]))
  {
    hide SameUpToCase;
    if |wild| == |str| {
      if forall i :: 0 <= i < |wild| - 1 ==> wild[1..][i] == 63 || wild[1..][i] == str[1..][i] {
        assert forall i :: 0 < i < |wild| ==> wild[i] == wild[1..][i - 1] && str[i] == str[1..][i - 1];
      }
      if forall i :: 0 <= i < |wild| - 1 ==> wild[1..][i] == 63 || SameUpToCase(wild[1..][i], str[1..][i]) {
        assert forall i :: 0 < i < |wild| ==> wild[i] == wild[1..][i - 1] && str[i] == str[1..][i - 1];
      }
    }
  }

  /** A pattern without `*` and `?` takes its own text, and in the other mode its text in any case. */
  lemma WithoutWildcards(wild: seq<Byte>, str: seq<Byte>)
    requires 42 !in wild && 63 !in wild
    ensures Matches(wild, str, true) <==> wild == str
    ensures Matches(wild, str, false) <==>
            |wild| == |str| && forall i :: 0 <= i < |wild| ==> SameUpToCase(wild[i], str[i])
  {
    hide SameUpToCase, Matches;
    WithoutStar(wild, str);
    assert forall i :: 0 <= i < |wild| ==> wild[i] in wild;
  }

  /** The two ways to cut a string at the first star of a pattern. */
  ghost predicate Cuts(wild: seq<Byte>, rest: seq<Byte>, str: seq<Byte>, k: int, cs: bool) {
    |wild| <= k <= |str| && Matches(wild, str[..|wild|], cs) && Matches(rest, str[k..], cs)
  }

  /** What is before the first `*` takes as much of the string, and what is after it some end of the others. */
  lemma {:induction false} FirstStar(wild: seq<Byte>, rest: seq<Byte>, str: seq<Byte>, cs: bool)
    requires 42 !in wild
    ensures Matches(wild + [42] + rest, str, cs) <==> exists k :: Cuts(wild, rest, str, k, cs)
    decreases |wild|
  {
    var all := wild + [42] + rest;
    if wild == [] {
      assert all[0] == STAR && all[1..] == rest && str[..0] == [];
      if Matches(all, str, cs) {
        var k :| 0 <= k <= |str| && Matches(all[1..], str[k..], cs);
        assert Cuts(wild, rest, str, k, cs);
      }
    } else {
      assert wild[0] in wild && all[0] == wild[0] && all[1..] == wild[1..] + [42] + rest;
      InRest(wild);
      if str != [] {
        FirstStar(wild[1..], rest, str[1..], cs);
        forall k: int ensures Cuts(wild, rest, str, k, cs) <==>
                              MatchesOne(wild[0], str[0], cs) && Cuts(wild[1..], rest, str[1..], k - 1, cs)
        {
          OneMoreCut(wild, rest, str, k, cs);
        }
        if Matches(all, str, cs) {
          var k :| Cuts(wild[1..], rest, str[1..], k, cs);
          assert Cuts(wild[1..], rest, str[1..], k + 1 - 1, cs) && Cuts(wild, rest, str, k + 1, cs);
        }
      }
    }
  }

  lemma OneMoreCut(wild: seq<Byte>, rest: seq<Byte>, str: seq<Byte>, k: int, cs: bool)
    requires wild != [] && wild[0] != STAR && str != []
    ensures Cuts(wild, rest, str, k, cs) <==>
            MatchesOne(wild[0], str[0], cs) && Cuts(wild[1..], rest, str[1..], k - 1, cs)
  {
    if |wild| <= k <= |str| {
      assert str[1..][k - 1..] == str[k..] && str[..|wild|][1..] == str[1..][..|wild| - 1];
    }
  }

  /** Does the pattern from `w` on match the string from `s` on? */
  ghost predicate From(wild: seq<Byte>, w: int, str: seq<Byte>, s: int, caseSensitive: bool) {
    0 <= w <= |wild| && 0 <= s <= |str| && Matches(wild[w..], str[s..], caseSensitive)
  }

  /** Does the pattern from `w` on match some end of the string that starts at `s` or later? */
  ghost predicate FromSome(wild: seq<Byte>, w: int, str: seq<Byte>, s: int, caseSensitive: bool) {
    exists k :: s <= k && From(wild, w, str, k, caseSensitive)
  }

  lemma FromTheStart(wild: seq<Byte>, str: seq<Byte>, cs: bool)
    ensures From(wild, 0, str, 0, cs) <==> Matches(wild, str, cs)
  {
    assert wild[0..] == wild && str[0..] == str;
  }

  lemma FromStep(wild: seq<Byte>, w: int, str: seq<Byte>, s: int, cs: bool)
    requires 0 <= w < |wild| && 0 <= s <= |str| && wild[w] != STAR
    ensures From(wild, w, str, s, cs)
            <==> s < |str| && MatchesOne(wild[w], str[s], cs) && From(wild, w + 1, str, s + 1, cs)
  {
    assert wild[w..][1..] == wild[w + 1..];
    if s < |str| {
      assert str[s..][1..] == str[s + 1..];
    }
  }

  /** An attempt at a character the pattern cannot take, or past the pattern's end, fails. */
  lemma FromMismatch(wild: seq<Byte>, w: int, str: seq<Byte>, s: int, cs: bool)
    requires 0 <= w <= |wild| && 0 <= s < |str|
    requires w < |wild| ==> wild[w] != STAR && !MatchesOne(wild[w], str[s], cs)
    ensures !From(wild, w, str, s, cs)
  {
    if w < |wild| {
      FromStep(wild, w, str, s, cs);
    }
  }

  lemma FromStar(wild: seq<Byte>, w: int, str: seq<Byte>, s: int, cs: bool)
    requires 0 <= w < |wild| && 0 <= s <= |str| && wild[w] == STAR
    ensures From(wild, w, str, s, cs) <==> FromSome(wild, w + 1, str, s, cs)
  {
    assert wild[w..][1..] == wild[w + 1..];
    if From(wild, w, str, s, cs) {
      var k :| 0 <= k <= |str[s..]| && Matches(wild[w..][1..], str[s..][k..], cs);
      assert str[s..][k..] == str[s + k..];
      assert From(wild, w + 1, str, s + k, cs);
    }
    if FromSome(wild, w + 1, str, s, cs) {
      var k :| s <= k && From(wild, w + 1, str, k, cs);
      assert str[s..][k - s..] == str[k..];
    }
  }

  /** A star-free stretch of pattern consumes exactly its own length, wherever it is tried. */
  lemma {:induction false} LiteralConsumesItsLength(wild: seq<Byte>, m: int, w: int, str: seq<Byte>, k: int, cs: bool)
    requires 0 <= m <= w <= |wild| && STAR !in wild[m..w]
    requires From(wild, m, str, k, cs)
    ensures From(wild, w, str, k + (w - m), cs)
    decreases w - m
  {
    if m < w {
      assert wild[m] == wild[m..w][0];
      FromStep(wild, m, str, k, cs);
      assert wild[m + 1..w] == wild[m..w][1..];
      LiteralConsumesItsLength(wild, m + 1, w, str, k + 1, cs);
    }
  }

  /**
   * Reaching a second star, nothing is lost by forgetting the first one: the attempt at
   * `start` got as far as `s`, and any later attempt would get at least as far.
   */
  lemma ForgetEarlierStar(wild: seq<Byte>, m: int, w: int, str: seq<Byte>, start: int, s: int, cs: bool)
    requires 0 <= m <= w < |wild| && STAR !in wild[m..w] && wild[w] == STAR
    requires 0 <= start && s == start + (w - m) <= |str|
    requires From(wild, m, str, start, cs) <==> From(wild, w, str, s, cs)
    ensures FromSome(wild, m, str, start, cs) <==> FromSome(wild, w + 1, str, s, cs)
  {
    if FromSome(wild, m, str, start, cs) {
      var k :| start <= k && From(wild, m, str, k, cs);
      LiteralConsumesItsLength(wild, m, w, str, k, cs);
      FromStar(wild, w, str, k + (w - m), cs);
      var k' :| k + (w - m) <= k' && From(wild, w + 1, str, k', cs);
      assert s <= k';
    }
    if FromSome(wild, w + 1, str, s, cs) {
      FromStar(wild, w, str, s, cs);
    }
  }

  lemma NextAttempt(wild: seq<Byte>, m: int, str: seq<Byte>, start: int, cs: bool)
    requires !From(wild, m, str, start, cs)
    ensures FromSome(wild, m, str, start, cs) <==> FromSome(wild, m, str, start + 1, cs)
  {
  }

  /** With the string used up, only the current attempt can still succeed. */
  lemma LastAttempt(wild: seq<Byte>, m: int, w: int, str: seq<Byte>, start: int, cs: bool)
    requires 0 <= m <= w <= |wild| && STAR !in wild[m..w]
    requires 0 <= start && start + (w - m) == |str|
    requires From(wild, m, str, start, cs) <==> From(wild, w, str, |str|, cs)
    ensures FromSome(wild, m, str, start, cs) <==> From(wild, w, str, |str|, cs)
  {
    if FromSome(wild, m, str, start, cs) {
      var k :| start <= k && From(wild, m, str, k, cs);
      LiteralConsumesItsLength(wild, m, w, str, k, cs);
    }
  }

  /** The empty string matches exactly the patterns that are all stars. */
  lemma {:induction false} OnlyStarsMatchEmpty(wild: seq<Byte>, w: int, str: seq<Byte>, cs: bool)
    requires 0 <= w <= |wild|
    ensures From(wild, w, str, |str|, cs) <==> forall i :: w <= i < |wild| ==> wild[i] == STAR
    decreases |wild| - w
  {
    if w < |wild| {
      OnlyStarsMatchEmpty(wild, w + 1, str, cs);
      if wild[w] == STAR {
        FromStar(wild, w, str, |str|, cs);
      }
    }
  }

  /** A trailing star matches whatever is left. */
  lemma TrailingStar(wild: seq<Byte>, str: seq<Byte>, s: int, cs: bool)
    requires 0 <= s <= |str|
    ensures FromSome(wild, |wild|, str, s, cs)
  {
    assert wild[|wild|..] == [] && str[|str|..] == [];
    assert From(wild, |wild|, str, |str|, cs);
  }

  /**
   * `wildcmp`: greedy matching with one saved restart point. `mp` is the pattern position
   * after the last star seen and `cp` the next string position to retry from; -1 is the
   * null pointer both start as. Every read is inside its C string.
   */
  method WildCmp(str: CString, wild: CString, caseSensitive: bool) returns (r: bool)
    ensures r <==> Matches(Text(wild), Text(str), caseSensitive)
  {
    hide Matches, From, FromSome;
    ghost var S, W := Text(str), Text(wild);
    var s, w := 0, 0;
    var cp, mp := -1, -1;

    FromTheStart(W, S, caseSensitive);
    while str[s] != NUL && wild[w] != STAR
      invariant 0 <= s <= |S| && 0 <= w <= |W|
      invariant Matches(W, S, caseSensitive) <==> From(W, w, S, s, caseSensitive)
      decreases |S| - s
    {
      if !Same(wild[w], str[s], caseSensitive) && wild[w] != ANY {
        FromMismatch(W, w, S, s, caseSensitive);
        return false;
      }
      FromStep(W, w, S, s, caseSensitive);
      w := w + 1;
      s := s + 1;
    }

    while str[s] != NUL
      invariant 0 <= s <= |S| && 0 <= w <= |W|
      invariant mp < 0 ==> s == |S| || wild[w] == STAR
      invariant mp < 0 ==> (Matches(W, S, caseSensitive) <==> From(W, w, S, s, caseSensitive))
      invariant mp >= 0 ==>
                  && 0 < mp <= w && STAR !in W[mp..w] && 1 <= cp <= |S| + 1 && s - (cp - 1) == w - mp
                  && (From(W, mp, S, cp - 1, caseSensitive) <==> From(W, w, S, s, caseSensitive))
                  && (Matches(W, S, caseSensitive) <==> FromSome(W, mp, S, cp - 1, caseSensitive))
      decreases |W| - mp, |S| + 1 - cp, |S| - s
    {
      if wild[w] == STAR {
        FromStar(W, w, S, s, caseSensitive);
        if mp >= 0 {
          ForgetEarlierStar(W, mp, w, S, cp - 1, s, caseSensitive);
        }
        w := w + 1;
        if wild[w] == NUL {
          TrailingStar(W, S, s, caseSensitive);
          return true;
        }
        mp := w;
        cp := s + 1;
      } else if Same(wild[w], str[s], caseSensitive) || wild[w] == ANY {
        FromStep(W, w, S, s, caseSensitive);
        w := w + 1;
        s := s + 1;
      } else {
        FromMismatch(W, w, S, s, caseSensitive);
        NextAttempt(W, mp, S, cp - 1, caseSensitive);
        w := mp;
        s := cp;
        cp := cp + 1;
      }
    }

    ghost var w0 := w;
    while wild[w] == STAR
      invariant w0 <= w <= |W|
      invariant forall i :: w0 <= i < w ==> W[i] == STAR
      decreases |W| - w
    {
      w := w + 1;
    }
    OnlyStarsMatchEmpty(W, w0, S, caseSensitive);
    if mp >= 0 {
      LastAttempt(W, mp, w0, S, cp - 1, caseSensitive);
    }
    return wild[w] == NUL;
  }

  ghost predicate MatchesSome(name: CString, filters: seq<CString>, caseSensitive: bool)
  {
    exists f :: f in filters && Matches(Text(f), Text(name), caseSensitive)
  }

  /** `matchesAny`: an empty filter list answers `matchEmpty`. */
  method MatchesAny(name: CString, filters: seq<CString>, matchEmpty: bool, caseSensitive: bool) returns (r: bool)
    ensures r <==> (filters == [] && matchEmpty) || MatchesSome(name, filters, caseSensitive)
  {
    if filters == [] && matchEmpty {
      return true;
    }
    for i := 0 to |filters|
      invariant forall f :: f in filters[..i] ==> !Matches(Text(f), Text(name), caseSensitive)
    {
      var hit := WildCmp(name, filters[i], caseSensitive);
      if hit {
        return true;
      }
    }
    return false;
  }
}
