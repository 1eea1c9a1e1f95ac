/**
 * The string primitives of PHP and PCRE that the compiler relies on,
 * written out over Dafny sequences: `\s`, `trim`, `str_replace`, `strpos`,
 * `explode`, `implode` and ASCII case folding.
 */
module Text {

  /** The characters PCRE's `\s` matches: space, tab, line feed, vertical tab, form feed, carriage return. */
  predicate IsRegexSpace(c: char)
  {
    c == ' ' || c == '\t' || c == '\n' || c == '\U{B}' || c == '\U{C}' || c == '\r'
  }

  /** The characters PHP's `trim` strips by default: space, tab, line feed, carriage return, NUL, vertical tab. */
  predicate IsTrimSpace(c: char)
  {
    c == ' ' || c == '\t' || c == '\n' || c == '\r' || c == '\0' || c == '\U{B}'
  }

  /** ASCII lower-casing, as PCRE's caseless matching and PHP's method lookup use it. */
  function Lower(c: char): (d: char)
    ensures 'A' <= c <= 'Z' ==> 'a' <= d <= 'z'
    ensures !('A' <= c <= 'Z') ==> d == c
  {
    if 'A' <= c <= 'Z' then (c as int + 32) as char else c
  }

  function LowerString(s: string): (t: string)
    ensures |t| == |s| && forall i :: 0 <= i < |s| ==> t[i] == Lower(s[i])
  {
    if s == [] then [] else [Lower(s[0])] + LowerString(s[1..])
  }

  /** Lower-casing twice is lower-casing once. */
  lemma LowerIdempotent(s: string)
    ensures LowerString(LowerString(s)) == LowerString(s)
  {
    var t := LowerString(s);
    forall i | 0 <= i < |t|
      ensures LowerString(t)[i] == t[i]
    {
      assert t[i] == Lower(s[i]);
    }
  }

  /** `pat` occurs in `s` starting at `i`. */
  predicate OccursAt<T(==)>(pat: seq<T>, s: seq<T>, i: int)
  {
    0 <= i && i + |pat| <= |s| && s[i..i + |pat|] == pat
  }

  ghost predicate Occurs<T>(pat: seq<T>, s: seq<T>)
  {
    exists i :: OccursAt(pat, s, i)
  }

  /** Occurrences in the tail of `s` are the occurrences in `s` one position further on. */
  lemma OccursShift<T>(pat: seq<T>, s: seq<T>)
    requires s != []
    ensures forall j {:trigger OccursAt(pat, s[1..], j)} :: 0 <= j ==> (OccursAt(pat, s[1..], j) <==> OccursAt(pat, s, j + 1))
  {
    forall j | 0 <= j
      ensures OccursAt(pat, s[1..], j) <==> OccursAt(pat, s, j + 1)
    {
      if 0 <= j && j + |pat| <= |s| - 1 {
        assert s[1..][j..j + |pat|] == s[j + 1..j + 1 + |pat|];
      }
    }
  }

  /** `strpos($s, $pat) !== false`: the first position of `pat` in `s`, if any. */
  function Find<T(==)>(pat: seq<T>, s: seq<T>): (r: int)
    ensures -1 <= r <= |s|
    ensures r >= 0 ==> OccursAt(pat, s, r)
    ensures r < 0 <==> !Occurs(pat, s)
    ensures forall j :: 0 <= j && (r < 0 || j < r) ==> !OccursAt(pat, s, j)
    decreases |s|
  {
    if |s| < |pat| then
      assert forall j :: !OccursAt(pat, s, j);
      -1
    else if s[..|pat|] == pat then
      assert OccursAt(pat, s, 0);
      0
    else
      var r := Find(pat, s[1..]);
      OccursShift(pat, s);
      assert forall j :: 1 <= j ==> (OccursAt(pat, s, j) <==> OccursAt(pat, s[1..], j - 1));
      if r < 0 then
        assert !OccursAt(pat, s, 0);
        -1
      else
        r + 1
  }

  function Contains<T(==)>(s: seq<T>, pat: seq<T>): (b: bool)
    ensures b <==> Occurs(pat, s)
  {
    Find(pat, s) >= 0
  }

  /**
   * PHP's `str_replace($pat, $rep, $s)`: scanning left to right, every
   * non-overlapping occurrence of `pat` is replaced by `rep`; the scan
   * resumes after the replaced occurrence.
   */
  function ReplaceAll<T(==)>(s: seq<T>, pat: seq<T>, rep: seq<T>): (r: seq<T>)
    requires |pat| > 0
    ensures rep == pat ==> r == s
    ensures |rep| <= |pat| ==> |r| <= |s|
    ensures |rep| >= |pat| ==> |r| >= |s|
    decreases |s|
  {
    if |s| < |pat| then s
    else if s[..|pat|] == pat then rep + ReplaceAll(s[|pat|..], pat, rep)
    else [s[0]] + ReplaceAll(s[1..], pat, rep)
  }

  /** A text in which the pattern never occurs comes back from `str_replace` untouched. */
  lemma {:induction false} ReplaceAllAbsent<T>(s: seq<T>, pat: seq<T>, rep: seq<T>)
    requires |pat| > 0 && !Occurs(pat, s)
    ensures ReplaceAll(s, pat, rep) == s
    decreases |s|
  {
    if |s| >= |pat| {
      assert !OccursAt(pat, s, 0);
      OccursShift(pat, s);
      ReplaceAllAbsent(s[1..], pat, rep);
    }
  }

  /** `pat` sitting at the very front of a text that holds it nowhere else is replaced exactly once. */
  lemma {:induction false} ReplaceAllOnce<T>(pat: seq<T>, rest: seq<T>, rep: seq<T>)
    requires |pat| > 0 && !Occurs(pat, rest)
    ensures ReplaceAll(pat + rest, pat, rep) == rep + rest
  {
    assert (pat + rest)[..|pat|] == pat;
    assert (pat + rest)[|pat|..] == rest;
    ReplaceAllAbsent(rest, pat, rep);
  }

  /** Strip the characters of `IsTrimSpace` from the front. */
  function TrimStart(s: string): (r: string)
    ensures |r| <= |s| && r == s[|s| - |r|..]
    ensures r == [] || !IsTrimSpace(r[0])
    ensures forall i :: 0 <= i < |s| - |r| ==> IsTrimSpace(s[i])
  {
    if s != [] && IsTrimSpace(s[0]) then TrimStart(s[1..]) else s
  }

  /** Strip the characters of `IsTrimSpace` from the back. */
  function TrimEnd(s: string): (r: string)
    ensures |r| <= |s| && r == s[..|r|]
    ensures r == [] || !IsTrimSpace(r[|r| - 1])
    ensures forall i :: |r| <= i < |s| ==> IsTrimSpace(s[i])
  {
    if s != [] && IsTrimSpace(s[|s| - 1]) then TrimEnd(s[..|s| - 1]) else s
  }

  lemma TrimStartSkips(s: string)
    requires s != [] && IsTrimSpace(s[0])
    ensures TrimStart(s) == TrimStart(s[1..])
  {
  }

  lemma TrimStartKeeps(s: string)
    requires s != [] && !IsTrimSpace(s[0])
    ensures TrimStart(s) == s
  {
  }

  lemma TrimEndSkips(s: string)
    requires s != [] && IsTrimSpace(s[|s| - 1])
    ensures TrimEnd(s) == TrimEnd(s[..|s| - 1])
  {
  }

  lemma TrimEndKeeps(s: string)
    requires s != [] && !IsTrimSpace(s[|s| - 1])
    ensures TrimEnd(s) == s
  {
  }

  /** `r` is `s` with only strippable characters before `lo` and after `lo + |r|`. */
  ghost predicate PaddedBy(s: string, r: string, lo: int)
  {
    && 0 <= lo <= |s| - |r| && r == s[lo..lo + |r|]
    && (forall i :: 0 <= i < lo ==> IsTrimSpace(s[i]))
    && (forall i :: lo + |r| <= i < |s| ==> IsTrimSpace(s[i]))
  }

  /** PHP's `trim($s)`. */
  function Trim(s: string): string
  {
    TrimEnd(TrimStart(s))
  }

  /** `trim` removes only strippable characters, and only from the two ends. */
  lemma TrimPadding(s: string)
    ensures exists lo :: PaddedBy(s, Trim(s), lo)
  {
    var a := TrimStart(s);
    var b := TrimEnd(a);
    PaddedInside(s, a, b);
    assert Trim(s) == b;
    assert PaddedBy(s, Trim(s), |s| - |a|);
  }

  /** A suffix of `s` after strippable characters, cut before strippable characters, pads back to `s`. */
  lemma PaddedInside(s: string, a: string, b: string)
    requires |a| <= |s| && a == s[|s| - |a|..] && forall i :: 0 <= i < |s| - |a| ==> IsTrimSpace(s[i])
    requires |b| <= |a| && b == a[..|b|] && forall i :: |b| <= i < |a| ==> IsTrimSpace(a[i])
    ensures PaddedBy(s, b, |s| - |a|)
  {
    var lo := |s| - |a|;
    forall i | lo + |b| <= i < |s|
      ensures IsTrimSpace(s[i])
    {
      assert s[i] == a[i - lo];
    }
    assert b == s[lo..lo + |b|];
  }

  /** No strippable character at either end. */
  predicate IsTrimmed(s: string)
  {
    s == [] || (!IsTrimSpace(s[0]) && !IsTrimSpace(s[|s| - 1]))
  }

  /** `trim` leaves a trimmed string alone and always yields a trimmed one. */
  lemma TrimFacts(s: string)
    ensures IsTrimmed(Trim(s))
    ensures IsTrimmed(s) ==> Trim(s) == s
  {
    var a := TrimStart(s);
    if IsTrimmed(s) && s != [] {
      assert a == s;
    }
    var b := TrimEnd(a);
    if b != [] {
      assert b[0] == a[0];
    }
  }

  /** PHP's `implode($sep, $pieces)`. */
  function Join<T>(pieces: seq<seq<T>>, sep: seq<T>): seq<T>
  {
    if pieces == [] then []
    else if |pieces| == 1 then pieces[0]
    else pieces[0] + sep + Join(pieces[1..], sep)
  }

  lemma JoinCons<T>(x: seq<T>, rest: seq<seq<T>>, sep: seq<T>)
    requires |rest| >= 1
    ensures Join([x] + rest, sep) == x + sep + Join(rest, sep)
  {
    assert ([x] + rest)[1..] == rest;
  }
}
