/** The fragment of JavaScript regular expressions the validators use:
    patterns anchored by `^` and `$` that are a sequence of literal
    characters, character classes repeated a fixed number of times (`{n}`)
    and character classes repeated one or more times (`+`), plus the
    unanchored test for one character of a class. */
module Patterns {

  /** A bracketed character class `[...]` as inclusive ranges; `negated` is
      the `[^...]` form. */
  datatype CharClass = CharClass(negated: bool, ranges: seq<(char, char)>)

  predicate InRanges(c: char, ranges: seq<(char, char)>)
  {
    exists i :: 0 <= i < |ranges| && ranges[i].0 <= c <= ranges[i].1
  }

  predicate InClass(c: char, cls: CharClass)
  {
    InRanges(c, cls.ranges) != cls.negated
  }

  /** Every character of `s` is in the class. */
  predicate AllIn(s: string, cls: CharClass)
  {
    forall i :: 0 <= i < |s| ==> InClass(s[i], cls)
  }

  /** One element of a pattern. */
  datatype Piece =
    | Lit(c: char)                           // a literal character
    | Exactly(cls: CharClass, count: nat)    // [..]{count}
    | OneOrMore(cls: CharClass)              // [..]+

  /** `s` matches the whole pattern, from its first to its last character
      (the pattern between `^` and `$`; `$` without the multiline flag
      matches only at the end of the input). */
  predicate Matches(p: seq<Piece>, s: string)
    decreases |p|
  {
    if p == [] then s == []
    else match p[0]
      case Lit(c) => |s| > 0 && s[0] == c && Matches(p[1..], s[1..])
      case Exactly(cls, n) => n <= |s| && AllIn(s[..n], cls) && Matches(p[1..], s[n..])
      case OneOrMore(cls) =>
        exists n :: 1 <= n <= |s| && AllIn(s[..n], cls) && Matches(p[1..], s[n..])
  }

  /** `/[...]/.test(s)`: some character of `s` is in the class. */
  predicate ContainsClass(s: string, cls: CharClass)
  {
    exists i :: 0 <= i < |s| && InClass(s[i], cls)
  }

  lemma MatchesLit(c: char, rest: seq<Piece>, s: string)
    ensures Matches([Lit(c)] + rest, s) <==> |s| > 0 && s[0] == c && Matches(rest, s[1..])
  {
    assert ([Lit(c)] + rest)[1..] == rest;
  }

  lemma MatchesExactly(cls: CharClass, n: nat, rest: seq<Piece>, s: string)
    ensures Matches([Exactly(cls, n)] + rest, s) <==>
      n <= |s| && AllIn(s[..n], cls) && Matches(rest, s[n..])
  {
    assert ([Exactly(cls, n)] + rest)[1..] == rest;
  }

  lemma MatchesOneOrMore(cls: CharClass, rest: seq<Piece>, s: string)
    ensures Matches([OneOrMore(cls)] + rest, s) <==>
      exists n :: 1 <= n <= |s| && AllIn(s[..n], cls) && Matches(rest, s[n..])
  {
    assert ([OneOrMore(cls)] + rest)[1..] == rest;
  }

  /** A pattern that is one class repeated `n` times matches exactly the
      strings of length `n` made of that class. */
  lemma MatchesOnlyExactly(cls: CharClass, n: nat, s: string)
    ensures Matches([Exactly(cls, n)], s) <==> |s| == n && AllIn(s, cls)
  {
    MatchesExactly(cls, n, [], s);
    if |s| == n {
      assert s[..n] == s;
    }
  }

  /** A pattern that is one class repeated one or more times matches exactly
      the non-empty strings made of that class. */
  lemma MatchesOnlyOneOrMore(cls: CharClass, s: string)
    ensures Matches([OneOrMore(cls)], s) <==> |s| >= 1 && AllIn(s, cls)
  {
    MatchesOneOrMore(cls, [], s);
    if |s| >= 1 && AllIn(s, cls) {
      assert s[..|s|] == s;
      assert Matches([], s[|s|..]);
    }
  }

  /** `s` is a non-empty run of `cls`, the separator `a` at `i`, a non-empty
      run, the separator `b` at `j`, and a non-empty run. */
  ghost predicate SeparatedAt(s: string, cls: CharClass, a: char, b: char, i: int, j: int)
  {
    && 0 < i && i + 1 < j < |s| - 1
    && s[i] == a && s[j] == b
    && forall k :: 0 <= k < |s| && k != i && k != j ==> InClass(s[k], cls)
  }

  /** The pattern `cls+ a cls+ b cls+`. */
  function Separated(cls: CharClass, a: char, b: char): (p: seq<Piece>)
    ensures p == [OneOrMore(cls)] + ([Lit(a)] + ([OneOrMore(cls)] + ([Lit(b)] + [OneOrMore(cls)])))
  {
    [OneOrMore(cls), Lit(a), OneOrMore(cls), Lit(b), OneOrMore(cls)]
  }

  lemma AllInSlice(s: string, cls: CharClass, lo: int, hi: int)
    requires 0 <= lo <= hi <= |s|
    ensures AllIn(s[lo..hi], cls) <==> forall k :: lo <= k < hi ==> InClass(s[k], cls)
  {
    if forall k :: lo <= k < hi ==> InClass(s[k], cls) {
      forall m | 0 <= m < hi - lo ensures InClass(s[lo..hi][m], cls) {
        assert s[lo..hi][m] == s[lo + m];
      }
    }
    if AllIn(s[lo..hi], cls) {
      forall k | lo <= k < hi ensures InClass(s[k], cls) {
        assert s[lo..hi][k - lo] == s[k];
      }
    }
  }

  /** The length of the run a `cls+` piece consumes in some match. */
  lemma OneOrMoreRun(cls: CharClass, rest: seq<Piece>, s: string) returns (n: nat)
    requires Matches([OneOrMore(cls)] + rest, s)
    ensures 1 <= n <= |s| && AllIn(s[..n], cls) && Matches(rest, s[n..])
  {
    MatchesOneOrMore(cls, rest, s);
    n :| 1 <= n <= |s| && AllIn(s[..n], cls) && Matches(rest, s[n..]);
  }

  lemma RunsToSplit(s: string, cls: CharClass, a: char, b: char, i: int, j: int)
    requires 0 < i && i + 1 < j < |s| - 1 && s[i] == a && s[j] == b
    requires AllIn(s[..i], cls) && AllIn(s[i + 1..j], cls) && AllIn(s[j + 1..], cls)
    ensures SeparatedAt(s, cls, a, b, i, j)
  {
    AllInSlice(s, cls, 0, i);
    assert s[..i] == s[0..i];
    AllInSlice(s, cls, i + 1, j);
    AllInSlice(s, cls, j + 1, |s|);
    assert s[j + 1..] == s[j + 1..|s|];
  }

  lemma SeparatedToSplit(cls: CharClass, a: char, b: char, s: string)
    requires Matches(Separated(cls, a, b), s)
    ensures exists i, j :: SeparatedAt(s, cls, a, b, i, j)
  {
    var r3 := [OneOrMore(cls)];
    var r2 := [Lit(b)] + r3;
    var r1 := [OneOrMore(cls)] + r2;
    var r0 := [Lit(a)] + r1;
    var n1 := OneOrMoreRun(cls, r0, s);
    var t1 := s[n1..];
    MatchesLit(a, r1, t1);
    var t2 := t1[1..];
    var n2 := OneOrMoreRun(cls, r2, t2);
    var t3 := t2[n2..];
    MatchesLit(b, r3, t3);
    var t4 := t3[1..];
    MatchesOnlyOneOrMore(cls, t4);
    var j := n1 + 1 + n2;
    assert t2[..n2] == s[n1 + 1..j];
    assert t4 == s[j + 1..];
    RunsToSplit(s, cls, a, b, n1, j);
  }

  lemma SplitToSeparated(cls: CharClass, a: char, b: char, s: string, i: int, j: int)
    requires SeparatedAt(s, cls, a, b, i, j)
    ensures Matches(Separated(cls, a, b), s)
  {
    var r3 := [OneOrMore(cls)];
    var r2 := [Lit(b)] + r3;
    var r1 := [OneOrMore(cls)] + r2;
    var r0 := [Lit(a)] + r1;
    AllInSlice(s, cls, 0, i);
    AllInSlice(s, cls, i + 1, j);
    AllInSlice(s, cls, j + 1, |s|);
    MatchesOnlyOneOrMore(cls, s[j + 1..]);
    assert s[j..][1..] == s[j + 1..];
    MatchesLit(b, r3, s[j..]);
    assert s[i + 1..][..j - i - 1] == s[i + 1..j];
    assert s[i + 1..][j - i - 1..] == s[j..];
    MatchesOneOrMore(cls, r2, s[i + 1..]);
    assert s[i..][1..] == s[i + 1..];
    MatchesLit(a, r1, s[i..]);
    MatchesOneOrMore(cls, r0, s);
  }

  /** `cls+ a cls+ b cls+` matches exactly when the string splits that way. */
  lemma SeparatedMatches(cls: CharClass, a: char, b: char, s: string)
    ensures Matches(Separated(cls, a, b), s) <==> exists i, j :: SeparatedAt(s, cls, a, b, i, j)
  {
    if Matches(Separated(cls, a, b), s) {
      SeparatedToSplit(cls, a, b, s);
    }
    if exists i, j :: SeparatedAt(s, cls, a, b, i, j) {
      var i, j :| SeparatedAt(s, cls, a, b, i, j);
      SplitToSeparated(cls, a, b, s, i, j);
    }
  }
}
