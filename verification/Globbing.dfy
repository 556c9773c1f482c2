/** The wildcard matcher behind doctest's name filters (extern/doctest.h).

    A C string is modelled by its characters before the terminating NUL, so
    "*str is non-zero" reads "the index is below the length". `fold` stands for
    the character comparison key: the identity when the search is case sensitive,
    and the C library's `tolower` when it is not. */
module Globbing {

  type Fold = char -> char

  predicate Same(fold: Fold, w: char, c: char) {
    fold(w) == fold(c) || w == '?'
  }

  /** The declarative reading: does the pattern from position `j` match all of the
      text from position `i`?  A `*` is any sequence, `?` any one character, and
      every other character stands for itself up to `fold`. */
  ghost predicate Glob(fold: Fold, s: string, i: nat, w: string, j: nat)
    requires i <= |s| && j <= |w|
    decreases |w| - j
  {
    if j == |w| then i == |s|
    else if w[j] == '*' then exists k {:trigger Glob(fold, s, k, w, j + 1)} :: i <= k <= |s| && Glob(fold, s, k, w, j + 1)
    else i < |s| && (w[j] == '?' || fold(w[j]) == fold(s[i])) && Glob(fold, s, i + 1, w, j + 1)
  }

  /** Some suffix of the text at or after `i` matches the pattern from `j`: what
      remains to be decided once a star has been read. */
  ghost predicate GlobAfter(fold: Fold, s: string, i: nat, w: string, j: nat)
    requires j <= |w|
  {
    exists k :: i <= k <= |s| && Glob(fold, s, k, w, j)
  }

  /** The star-free piece `w[j..j+n]` matches `s[i..i+n]` position by position. */
  ghost predicate Literal(fold: Fold, s: string, i: nat, w: string, j: nat, n: nat) {
    && i + n <= |s| && j + n <= |w|
    && forall m :: j <= m < j + n ==> w[m] != '*' && Same(fold, w[m], s[i + (m - j)])
  }

  /** A pattern that starts with a star-free piece matches exactly when the piece
      matches the next characters and the rest of the pattern matches the rest. */
  lemma {:induction false} LiteralSplit(fold: Fold, s: string, i: nat, w: string, j: nat, n: nat)
    requires i <= |s| && j + n <= |w| && forall m :: j <= m < j + n ==> w[m] != '*'
    ensures Glob(fold, s, i, w, j) <==> Literal(fold, s, i, w, j, n) && Glob(fold, s, i + n, w, j + n)
    decreases n
  {
    if n > 0 {
      assert w[j] != '*';
      if i < |s| {
        LiteralSplit(fold, s, i + 1, w, j + 1, n - 1);
        if Same(fold, w[j], s[i]) && Literal(fold, s, i + 1, w, j + 1, n - 1) {
          forall m | j <= m < j + n ensures w[m] != '*' && Same(fold, w[m], s[i + (m - j)]) {
            if m > j { assert Same(fold, w[m], s[(i + 1) + (m - (j + 1))]); }
          }
        }
        if Literal(fold, s, i, w, j, n) {
          forall m | j + 1 <= m < j + n ensures Same(fold, w[m], s[(i + 1) + (m - (j + 1))]) {
            assert Same(fold, w[m], s[i + (m - j)]);
          }
        }
      }
    }
  }

  /** Remembering only the latest star loses no match: when the star-free piece
      after an earlier star has been matched at its first place and another star
      follows, any match of the whole can use that first place. */
  lemma LatestStarSuffices(fold: Fold, s: string, i: nat, w: string, j: nat, n: nat)
    requires Literal(fold, s, i, w, j, n) && j + n < |w| && w[j + n] == '*'
    ensures GlobAfter(fold, s, i, w, j) <==> GlobAfter(fold, s, i + n, w, j + n + 1)
  {
    if GlobAfter(fold, s, i, w, j) {
      var k :| i <= k <= |s| && Glob(fold, s, k, w, j);
      LiteralSplit(fold, s, k, w, j, n);
      var l :| k + n <= l <= |s| && Glob(fold, s, l, w, j + n + 1);
    }
    if GlobAfter(fold, s, i + n, w, j + n + 1) {
      LiteralSplit(fold, s, i, w, j, n);
      assert Glob(fold, s, i, w, j);
    }
  }

  /** A mismatch inside the piece rules out its current place, and only that place. */
  lemma NextPlace(fold: Fold, s: string, i: nat, w: string, j: nat, n: nat)
    requires Literal(fold, s, i, w, j, n) && i + n < |s|
    requires j + n < |w| ==> w[j + n] != '*' && !Same(fold, w[j + n], s[i + n])
    ensures GlobAfter(fold, s, i, w, j) <==> GlobAfter(fold, s, i + 1, w, j)
  {
    LiteralSplit(fold, s, i, w, j, n);
    if GlobAfter(fold, s, i, w, j) {
      var k :| i <= k <= |s| && Glob(fold, s, k, w, j);
      assert k != i;
    }
  }

  /** Once the text is used up, only stars may remain in the pattern. */
  lemma {:induction false} OnlyStarsLeft(fold: Fold, s: string, w: string, j: nat)
    requires j <= |w|
    ensures Glob(fold, s, |s|, w, j) <==> forall m :: j <= m < |w| ==> w[m] == '*'
    decreases |w| - j
  {
    if j < |w| { OnlyStarsLeft(fold, s, w, j + 1); }
  }

  /** What the matcher still has to decide, given the verdict `v` on the whole: the
      piece after the latest star is matched at `cp - 1` up to `si`, and the verdict
      rests on that piece's places from `cp - 1` on. */
  ghost predicate Pending(fold: Fold, s: string, w: string, si: nat, wi: nat, cp: nat, mp: nat, v: bool) {
    && 0 < cp <= si + 1 && mp <= wi && si - (cp - 1) == wi - mp
    && Literal(fold, s, cp - 1, w, mp, wi - mp)
    && (v <==> GlobAfter(fold, s, cp - 1, w, mp))
  }

  lemma PendingAtEnd(fold: Fold, s: string, w: string, wi: nat, cp: nat, mp: nat, v: bool)
    requires Pending(fold, s, w, |s|, wi, cp, mp, v)
    ensures wi <= |w| && (v <==> Glob(fold, s, |s|, w, wi))
  {
    LiteralSplit(fold, s, cp - 1, w, mp, wi - mp);
    if v {
      var k :| cp - 1 <= k <= |s| && Glob(fold, s, k, w, mp);
      LiteralSplit(fold, s, k, w, mp, wi - mp);
    }
  }

  /** At a star: what is pending now is a piece that has not begun. */
  lemma StarStep(fold: Fold, s: string, w: string, si: nat, wi: nat, cp: nat, mp: nat, v: bool)
    requires si <= |s| && wi < |w| && w[wi] == '*'
    requires if cp == 0 then v <==> Glob(fold, s, si, w, wi) else Pending(fold, s, w, si, wi, cp, mp, v)
    ensures Pending(fold, s, w, si, wi + 1, si + 1, wi + 1, v) && (wi + 1 == |w| ==> v)
  {
    if cp > 0 { LatestStarSuffices(fold, s, cp - 1, w, mp, wi - mp); }
    if wi + 1 == |w| { assert Glob(fold, s, |s|, w, wi + 1); }
  }

  lemma SameStep(fold: Fold, s: string, w: string, si: nat, wi: nat, cp: nat, mp: nat, v: bool)
    requires Pending(fold, s, w, si, wi, cp, mp, v)
    requires si < |s| && wi < |w| && w[wi] != '*' && Same(fold, w[wi], s[si])
    ensures Pending(fold, s, w, si + 1, wi + 1, cp, mp, v)
  {
  }

  lemma NextStep(fold: Fold, s: string, w: string, si: nat, wi: nat, cp: nat, mp: nat, v: bool)
    requires Pending(fold, s, w, si, wi, cp, mp, v)
    requires si < |s| && (wi < |w| ==> w[wi] != '*' && !Same(fold, w[wi], s[si]))
    ensures Pending(fold, s, w, cp, mp, cp + 1, mp, v) && cp <= si + 1
  {
    NextPlace(fold, s, cp - 1, w, mp, wi - mp);
  }

  /** The star-free start of the pattern; `undecided` tells whether a star was reached. */
  method SkipLiteral(str: string, wild: string, fold: Fold) returns (undecided: bool, n: nat)
    ensures !undecided ==> !Glob(fold, str, 0, wild, 0)
    ensures undecided ==> n <= |str| && n <= |wild| && (Glob(fold, str, 0, wild, 0) <==> Glob(fold, str, n, wild, n))
    ensures undecided && n < |str| ==> n < |wild| && wild[n] == '*'
  {
    n := 0;
    while n < |str| && !(n < |wild| && wild[n] == '*')
      invariant n <= |str| && n <= |wild|
      invariant Literal(fold, str, 0, wild, 0, n)
    {
      if !(n < |wild| && Same(fold, wild[n], str[n])) {
        LiteralSplit(fold, str, 0, wild, 0, n);
        return false, n;
      }
      n := n + 1;
    }
    LiteralSplit(fold, str, 0, wild, 0, n);
    return true, n;
  }

  /** The two-pointer matcher. `cp` and `mp` remember the latest star only: the next
      text position to retry from and the pattern position after the star. */
  method Wildcmp(str: string, wild: string, fold: Fold) returns (r: bool)
    ensures r <==> Glob(fold, str, 0, wild, 0)
  {
    hide Glob, Pending, Same;
    ghost var v := Glob(fold, str, 0, wild, 0);
    var undecided, si := SkipLiteral(str, wild, fold);
    if !undecided {
      return false;
    }
    var wi: nat, cp: nat, mp: nat := si, 0, 0;
    while si < |str|
      invariant 0 <= si <= |str| && wi <= |wild| && mp <= |wild| && cp <= si + 1
      invariant cp == 0 ==> mp == 0 && (v <==> Glob(fold, str, si, wild, wi)) && (si < |str| ==> wi < |wild| && wild[wi] == '*')
      invariant cp > 0 ==> Pending(fold, str, wild, si, wi, cp, mp, v)
      invariant mp <= wi
      decreases |wild| - mp, |str| + 1 - cp, |str| - si
    {
      if wi < |wild| && wild[wi] == '*' {
        StarStep(fold, str, wild, si, wi, cp, mp, v);
        wi := wi + 1;
        if wi == |wild| {
          return true;
        }
        mp, cp := wi, si + 1;
      } else if wi < |wild| && Same(fold, wild[wi], str[si]) {
        SameStep(fold, str, wild, si, wi, cp, mp, v);
        wi, si := wi + 1, si + 1;
      } else {
        NextStep(fold, str, wild, si, wi, cp, mp, v);
        wi, si, cp := mp, cp, cp + 1;
      }
    }
    if cp > 0 { PendingAtEnd(fold, str, wild, wi, cp, mp, v); }
    OnlyStarsLeft(fold, str, wild, wi);
    while wi < |wild| && wild[wi] == '*'
      invariant wi <= |wild|
      invariant v <==> forall m :: wi <= m < |wild| ==> wild[m] == '*'
    {
      wi := wi + 1;
    }
    return wi == |wild|;
  }

  /** A name passes a filter list when some filter matches it, or when the list is
      empty and the caller asked for an empty list to accept everything. */
  method MatchesAny(name: string, filters: seq<string>, matchEmpty: bool, fold: Fold) returns (r: bool)
    ensures r <==> (filters == [] && matchEmpty) || exists f :: f in filters && Glob(fold, name, 0, f, 0)
  {
    if filters == [] && matchEmpty {
      return true;
    }
    for i := 0 to |filters|
      invariant forall m :: 0 <= m < i ==> !Glob(fold, name, 0, filters[m], 0)
    {
      var matched := Wildcmp(name, filters[i], fold);
      if matched {
        return true;
      }
    }
    return false;
  }
}
