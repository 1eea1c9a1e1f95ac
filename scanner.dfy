/**
 * The directive scan of `__compileFunctions` (jessc.php:145): every
 * non-overlapping match, left to right, of the case-insensitive pattern
 * `jess \s* . \s* [a-z0-9_]* ( args );`, where the arguments run up to the
 * first `);` after the opening parenthesis. The pattern is written here as a
 * hand-made scanner for this one expression, and `PatternAt` states,
 * position by position, what a match of the expression is.
 */
module Scanner {
  import opened Wrappers
  import opened Text

  /** One match in `PREG_SET_ORDER`: `$call[1]`, `$call[2]` and `$call[0]`. */
  datatype Call = Call(name: string, args: string, full: string)

  /** `[a-z0-9_]` under the caseless flag. */
  predicate IsNameChar(c: char)
  {
    'a' <= c <= 'z' || 'A' <= c <= 'Z' || '0' <= c <= '9' || c == '_'
  }

  /** The caseless literal `jess` at `i`. */
  predicate JessAt(s: string, i: nat)
  {
    i + 4 <= |s| && Lower(s[i]) == 'j' && Lower(s[i + 1]) == 'e' && Lower(s[i + 2]) == 's' && Lower(s[i + 3]) == 's'
  }

  /** `s[j..k]` is all whitespace. */
  ghost predicate Spaces(s: string, j: nat, k: nat)
    requires j <= k <= |s|
  {
    forall p :: j <= p < k ==> IsRegexSpace(s[p])
  }

  /** `s[j..k]` is all name characters. */
  ghost predicate NameChars(s: string, j: nat, k: nat)
    requires j <= k <= |s|
  {
    forall p :: j <= p < k ==> IsNameChar(s[p])
  }

  /** `);` stands at `p`. */
  predicate CloseHere(s: string, p: int)
  {
    0 <= p && p + 2 <= |s| && s[p] == ')' && s[p + 1] == ';'
  }

  /** No `);` starts anywhere in `s[j..k]`. */
  ghost predicate NoClose(s: string, j: nat, k: nat)
  {
    forall p :: j <= p < k ==> !CloseHere(s, p)
  }

  /** The greedy `\s*` starting at `j`: the first position from `j` on that is not whitespace. */
  function SkipSpaces(s: string, j: nat): (k: nat)
    requires j <= |s|
    ensures j <= k <= |s| && Spaces(s, j, k)
    ensures k == |s| || !IsRegexSpace(s[k])
    decreases |s| - j
  {
    if j < |s| && IsRegexSpace(s[j]) then SkipSpaces(s, j + 1) else j
  }

  /** The greedy `[a-z0-9_]*` starting at `j`. */
  function SkipName(s: string, j: nat): (k: nat)
    requires j <= |s|
    ensures j <= k <= |s| && NameChars(s, j, k)
    ensures k == |s| || !IsNameChar(s[k])
    decreases |s| - j
  {
    if j < |s| && IsNameChar(s[j]) then SkipName(s, j + 1) else j
  }

  /** The lazy `(.*?)\);` starting at `j`: the first `);` at or after `j`, or -1. */
  function CloseAt(s: string, j: nat): (k: int)
    requires j <= |s|
    ensures k >= 0 ==> j <= k && CloseHere(s, k) && NoClose(s, j, k)
    ensures k < 0 ==> NoClose(s, j, |s|)
    decreases |s| - j
  {
    if j + 2 > |s| then -1
    else if CloseHere(s, j) then j
    else CloseAt(s, j + 1)
  }

  /**
   * The expression matches at `i` with the dot at `d`, the name in
   * `s[n0..n1]`, the opening parenthesis at `n1` and the closing `);` at `k`.
   */
  ghost predicate ShapeAt(s: string, i: nat, d: nat, n0: nat, n1: nat, k: nat)
  {
    && i + 4 <= d < n0 <= n1 < k && k + 2 <= |s|
    && JessAt(s, i)
    && Spaces(s, i + 4, d) && s[d] == '.'
    && Spaces(s, d + 1, n0) && !IsRegexSpace(s[n0])
    && NameChars(s, n0, n1) && s[n1] == '('
    && CloseHere(s, k) && NoClose(s, n1 + 1, k)
  }

  /** A match of the expression at `i`, ending at `e`, yields `c`. */
  ghost predicate PatternAt(s: string, i: nat, c: Call, e: nat)
  {
    exists d: nat, n0: nat, n1: nat, k: nat :: ShapeAt(s, i, d, n0, n1, k) &&
      c == Call(s[n0..n1], s[n1 + 1..k], s[i..k + 2]) && e == k + 2
  }

  /** The match of the expression starting exactly at `i`, with the position after it. */
  function MatchAt(s: string, i: nat): (m: Option<(Call, nat)>)
    requires i <= |s|
    ensures m.Some? ==> i + 8 <= m.value.1 <= |s| && m.value.0.full == s[i..m.value.1]
  {
    if !JessAt(s, i) then None else MatchDot(s, i, SkipSpaces(s, i + 4))
  }

  /** After `jess\s*`, stopped at `d`: a `.` must follow. */
  function MatchDot(s: string, i: nat, d: nat): (m: Option<(Call, nat)>)
    requires i + 4 <= d <= |s|
    ensures m.Some? ==> d + 4 <= m.value.1 <= |s| && m.value.0.full == s[i..m.value.1]
  {
    if d == |s| || s[d] != '.' then None else MatchName(s, i, SkipSpaces(s, d + 1))
  }

  /** After `\.\s*`, the name starts at `n0`; a `(` must follow it. */
  function MatchName(s: string, i: nat, n0: nat): (m: Option<(Call, nat)>)
    requires i + 4 < n0 <= |s|
    ensures m.Some? ==> n0 + 3 <= m.value.1 <= |s| && m.value.0.full == s[i..m.value.1]
  {
    var n1 := SkipName(s, n0);
    if n1 == |s| || s[n1] != '(' then None else MatchArgs(s, i, n0, n1, CloseAt(s, n1 + 1))
  }

  /** After the `(` at `n1`, the arguments run to the `);` at `k`, if there is one. */
  function MatchArgs(s: string, i: nat, n0: nat, n1: nat, k: int): (m: Option<(Call, nat)>)
    requires i <= n0 <= n1 < |s| && (k >= 0 ==> n1 < k && k + 2 <= |s|)
    ensures m.Some? ==> n1 + 3 <= m.value.1 <= |s| && m.value.0.full == s[i..m.value.1]
  {
    if k < 0 then None else Some((Call(s[n0..n1], s[n1 + 1..k], s[i..k + 2]), k + 2))
  }

  /** Whatever the scanner returns is a match of the expression. */
  lemma MatchAtSound(s: string, i: nat)
    requires i <= |s| && MatchAt(s, i).Some?
    ensures PatternAt(s, i, MatchAt(s, i).value.0, MatchAt(s, i).value.1)
  {
    var d := SkipSpaces(s, i + 4);
    var n0 := SkipSpaces(s, d + 1);
    var n1 := SkipName(s, n0);
    var k := CloseAt(s, n1 + 1);
    ScannedShape(s, i, d, n0, n1, k);
    var c, e := Call(s[n0..n1], s[n1 + 1..k], s[i..k + 2]), k + 2;
    MatchAtShape(s, i, d, n0, n1, k, c, e);
    assert PatternAt(s, i, c, e);
  }

  /** The positions the scanner stops at, when it finds a match, have the pattern's shape. */
  lemma ScannedShape(s: string, i: nat, d: nat, n0: nat, n1: nat, k: int)
    requires i <= |s| && MatchAt(s, i).Some?
    requires d == SkipSpaces(s, i + 4) && n0 == SkipSpaces(s, d + 1) && n1 == SkipName(s, n0) && k == CloseAt(s, n1 + 1)
    ensures k >= 0 && ShapeAt(s, i, d, n0, n1, k)
  {
  }

  /** A stretch of whitespace that stops at a non-whitespace character is the greedy `\s*`. */
  lemma SkipSpacesUnique(s: string, j: nat, k: nat)
    requires j <= k < |s| && !IsRegexSpace(s[k]) && Spaces(s, j, k)
    ensures SkipSpaces(s, j) == k
  {
  }

  lemma SkipNameUnique(s: string, j: nat, k: nat)
    requires j <= k < |s| && !IsNameChar(s[k]) && NameChars(s, j, k)
    ensures SkipName(s, j) == k
  {
  }

  /** The scanner finds every match of the expression, and exactly that one: the expression has one way to match at `i`. */
  lemma MatchAtComplete(s: string, i: nat, c: Call, e: nat)
    requires PatternAt(s, i, c, e)
    ensures i <= |s| && MatchAt(s, i) == Some((c, e))
  {
    var d: nat, n0: nat, n1: nat, k: nat :| ShapeAt(s, i, d, n0, n1, k) &&
      c == Call(s[n0..n1], s[n1 + 1..k], s[i..k + 2]) && e == k + 2;
    MatchAtShape(s, i, d, n0, n1, k, c, e);
  }

  lemma MatchAtShape(s: string, i: nat, d: nat, n0: nat, n1: nat, k: nat, c: Call, e: nat)
    requires ShapeAt(s, i, d, n0, n1, k) && c == Call(s[n0..n1], s[n1 + 1..k], s[i..k + 2]) && e == k + 2
    ensures MatchAt(s, i) == Some((c, e))
  {
    assert MatchArgs(s, i, n0, n1, k) == Some((c, e));
    StepName(s, i, n0, n1, k);
    StepDot(s, i, d, n0);
    StepJess(s, i, d);
  }

  lemma StepJess(s: string, i: nat, d: nat)
    requires JessAt(s, i) && i + 4 <= d < |s| && Spaces(s, i + 4, d) && s[d] == '.'
    ensures MatchAt(s, i) == MatchDot(s, i, d)
  {
    SkipSpacesUnique(s, i + 4, d);
  }

  lemma StepDot(s: string, i: nat, d: nat, n0: nat)
    requires i + 4 <= d < n0 < |s| && s[d] == '.' && Spaces(s, d + 1, n0) && !IsRegexSpace(s[n0])
    ensures MatchDot(s, i, d) == MatchName(s, i, n0)
  {
    SkipSpacesUnique(s, d + 1, n0);
  }

  lemma StepName(s: string, i: nat, n0: nat, n1: nat, k: nat)
    requires i + 4 < n0 <= n1 < k && k + 2 <= |s| && NameChars(s, n0, n1) && s[n1] == '('
    requires CloseHere(s, k) && NoClose(s, n1 + 1, k)
    ensures MatchName(s, i, n0) == MatchArgs(s, i, n0, n1, k)
  {
    SkipNameUnique(s, n0, n1);
    CloseAtUnique(s, n1 + 1, k);
  }

  /** The first `);` from `j` on is the lazy match. */
  lemma CloseAtUnique(s: string, j: nat, k: nat)
    requires j <= k && CloseHere(s, k) && NoClose(s, j, k)
    ensures CloseAt(s, j) == k
  {
  }

  /** `preg_match_all(..., PREG_SET_ORDER)` from `i` on: leftmost match first, the search resuming after it. */
  function Scan(s: string, i: nat): (calls: seq<Call>)
    requires i <= |s|
    ensures 8 * |calls| <= |s| - i
    ensures forall n :: 0 <= n < |calls| ==> |calls[n].full| >= 8
    decreases |s| - i
  {
    if i == |s| then []
    else
      match MatchAt(s, i)
      case Some((c, e)) => [c] + Scan(s, e)
      case None => Scan(s, i + 1)
  }

  /** There is no call at all exactly when the expression matches nowhere from `i` on. */
  lemma {:induction false} ScanEmpty(s: string, i: nat)
    requires i <= |s|
    ensures Scan(s, i) == [] <==> forall j :: i <= j <= |s| ==> MatchAt(s, j).None?
    decreases |s| - i
  {
    if i < |s| {
      ScanEmpty(s, i + 1);
    } else {
      assert MatchAt(s, i).None?;
    }
  }

  /** Every call found is a match of the expression at some position at or after `i`. */
  lemma {:induction false} ScanSound(s: string, i: nat, n: nat)
    requires i <= |s| && n < |Scan(s, i)|
    ensures exists j, e :: i <= j < e <= |s| && PatternAt(s, j, Scan(s, i)[n], e)
    decreases |s| - i
  {
    if i < |s| {
      match MatchAt(s, i)
      case Some((c, e)) =>
        assert Scan(s, i) == [c] + Scan(s, e);
        if n > 0 {
          ScanSound(s, e, n - 1);
          assert Scan(s, i)[n] == Scan(s, e)[n - 1];
          FoundEarlier(s, i, e, Scan(s, i)[n]);
        } else {
          MatchAtSound(s, i);
          assert PatternAt(s, i, Scan(s, i)[n], e);
        }
      case None =>
        assert Scan(s, i) == Scan(s, i + 1);
        ScanSound(s, i + 1, n);
        FoundEarlier(s, i, i + 1, Scan(s, i)[n]);
    }
  }

  /** A call matched from `k` on was also matched from any earlier `i` on. */
  lemma FoundEarlier(s: string, i: nat, k: nat, c: Call)
    requires i <= k && exists j, e :: k <= j < e <= |s| && PatternAt(s, j, c, e)
    ensures exists j, e :: i <= j < e <= |s| && PatternAt(s, j, c, e)
  {
    var j: nat, e: nat :| k <= j < e <= |s| && PatternAt(s, j, c, e);
    assert i <= j;
  }

  /** Every call found is non-empty text standing in the input: `str_replace` on it is well-defined. */
  lemma ScanFull(s: string, n: nat)
    requires n < |Scan(s, 0)|
    ensures |Scan(s, 0)[n].full| >= 8 && Occurs(Scan(s, 0)[n].full, s)
  {
    ScanSound(s, 0, n);
    var j: nat, e: nat :| 0 <= j < e <= |s| && PatternAt(s, j, Scan(s, 0)[n], e);
    PatternFull(s, j, Scan(s, 0)[n], e);
  }

  /** The text of a match is at least `jess.();` long and stands where it matched. */
  lemma PatternFull(s: string, i: nat, c: Call, e: nat)
    requires PatternAt(s, i, c, e)
    ensures |c.full| >= 8 && OccursAt(c.full, s, i)
  {
    var d: nat, n0: nat, n1: nat, k: nat :| ShapeAt(s, i, d, n0, n1, k) &&
      c == Call(s[n0..n1], s[n1 + 1..k], s[i..k + 2]) && e == k + 2;
    ShapeFull(s, i, d, n0, n1, k, c);
  }

  lemma ShapeFull(s: string, i: nat, d: nat, n0: nat, n1: nat, k: nat, c: Call)
    requires ShapeAt(s, i, d, n0, n1, k) && c.full == s[i..k + 2]
    ensures |c.full| >= 8 && OccursAt(c.full, s, i)
  {
  }

  /** Caseless `jess` at `j` is `jess` in the lower-cased text. */
  lemma JessLower(s: string, j: nat)
    requires JessAt(s, j)
    ensures OccursAt("jess", LowerString(s), j)
  {
    var t := LowerString(s);
    assert t[j..j + 4] == [t[j], t[j + 1], t[j + 2], t[j + 3]];
  }

  /** Text in which `jess` does not occur in any letter case has no directive call. */
  lemma NoJessNoCalls(s: string)
    ensures !Occurs("jess", LowerString(s)) ==> Scan(s, 0) == []
  {
    if !Occurs("jess", LowerString(s)) {
      forall j | 0 <= j <= |s| ensures MatchAt(s, j).None? {
        if JessAt(s, j) {
          JessLower(s, j);
        }
      }
      ScanEmpty(s, 0);
    }
  }
}
