/**
 * The argument splitter `JessCompiler::__exploder` (jessc.php:176-203).
 *
 * The splitter hides every innermost parenthesised group behind a numbered
 * placeholder, repeating until no group is left, then splits on commas,
 * trims each piece and puts the hidden groups back. Here a placeholder is a
 * token `Hole(n)` of its own, so it can never be confused with text of the
 * input (the source writes it as the text `{{n}}`; module AsWritten shows
 * what goes wrong there).
 *
 * The method `Explode` is proved equal to `TopLevelSplit`, a reference
 * splitter that cuts the input exactly at the commas that no matched pair
 * of parentheses encloses.
 */
module Exploding {
  import opened Text

  /** A character of the protected text, or the placeholder for hidden group number `n` (1-based). */
  datatype Tok = Ch(c: char) | Hole(n: nat)

  function Chars(s: string): (t: seq<Tok>)
    ensures |t| == |s| && forall i :: 0 <= i < |s| ==> t[i] == Ch(s[i])
  {
    seq(|s|, i requires 0 <= i < |s| => Ch(s[i]))
  }

  predicate IsParen(x: Tok)
  {
    x == Ch('(') || x == Ch(')')
  }

  /** Every placeholder in `u` names one of the groups 1..b. */
  ghost predicate HolesIn(u: seq<Tok>, b: nat)
  {
    forall i :: 0 <= i < |u| && u[i].Hole? ==> 1 <= u[i].n <= b
  }

  /** Group k+1 (entry k of the table) may only contain placeholders of earlier groups. */
  ghost predicate WellFormed(r: seq<seq<Tok>>)
  {
    forall k :: 0 <= k < |r| ==> HolesIn(r[k], k)
  }

  lemma WellFormedPrefix(r: seq<seq<Tok>>, m: nat)
    requires WellFormed(r) && m <= |r|
    ensures WellFormed(r[..m])
  {
    forall k | 0 <= k < m ensures HolesIn(r[..m][k], k) {
      assert r[..m][k] == r[k];
    }
  }

  /** The text a token sequence stands for once every placeholder is put back. */
  ghost function Expand(u: seq<Tok>, r: seq<seq<Tok>>): string
    requires WellFormed(r) && HolesIn(u, |r|)
    decreases |r|, |u|
  {
    if u == [] then [] else ExpandTok(u[0], r) + Expand(u[1..], r)
  }

  /** The text one token stands for: itself, or its group expanded over the earlier groups. */
  ghost function ExpandTok(x: Tok, r: seq<seq<Tok>>): string
    requires WellFormed(r) && (x.Hole? ==> 1 <= x.n <= |r|)
    decreases |r|, 0
  {
    if x.Ch? then [x.c] else (WellFormedPrefix(r, x.n - 1); Expand(r[x.n - 1], r[..x.n - 1]))
  }

  /** The size of a token sequence counting every token of every nested group; restoring a placeholder shrinks it. */
  ghost function Weight(u: seq<Tok>, r: seq<seq<Tok>>): nat
    requires WellFormed(r) && HolesIn(u, |r|)
    decreases |r|, |u|
  {
    if u == [] then 0 else WeightTok(u[0], r) + Weight(u[1..], r)
  }

  ghost function WeightTok(x: Tok, r: seq<seq<Tok>>): nat
    requires WellFormed(r) && (x.Hole? ==> 1 <= x.n <= |r|)
    decreases |r|, 0
  {
    if x.Ch? then 1 else (WellFormedPrefix(r, x.n - 1); 1 + Weight(r[x.n - 1], r[..x.n - 1]))
  }

  lemma HolesInAppend(a: seq<Tok>, b: seq<Tok>, k: nat)
    ensures HolesIn(a + b, k) <==> HolesIn(a, k) && HolesIn(b, k)
  {
    if HolesIn(a, k) && HolesIn(b, k) {
      forall i | 0 <= i < |a + b| && (a + b)[i].Hole? ensures 1 <= (a + b)[i].n <= k {
        if i >= |a| { assert (a + b)[i] == b[i - |a|]; }
      }
    }
    if HolesIn(a + b, k) {
      forall i | 0 <= i < |a| && a[i].Hole? ensures 1 <= a[i].n <= k {
        assert (a + b)[i] == a[i];
      }
      forall i | 0 <= i < |b| && b[i].Hole? ensures 1 <= b[i].n <= k {
        assert (a + b)[|a| + i] == b[i];
      }
    }
  }

  lemma HolesInSlice(u: seq<Tok>, k: nat, lo: nat, hi: nat)
    requires HolesIn(u, k) && lo <= hi <= |u|
    ensures HolesIn(u[lo..hi], k)
  {
    forall i | 0 <= i < hi - lo && u[lo..hi][i].Hole? ensures 1 <= u[lo..hi][i].n <= k {
      assert u[lo..hi][i] == u[lo + i];
    }
  }

  lemma HolesInMono(u: seq<Tok>, k: nat, k': nat)
    requires HolesIn(u, k) && k <= k'
    ensures HolesIn(u, k')
  {
  }

  lemma ExpandAppend(a: seq<Tok>, b: seq<Tok>, r: seq<seq<Tok>>)
    requires WellFormed(r) && HolesIn(a, |r|) && HolesIn(b, |r|)
    ensures HolesIn(a + b, |r|)
    ensures Expand(a + b, r) == Expand(a, r) + Expand(b, r)
    ensures Weight(a + b, r) == Weight(a, r) + Weight(b, r)
  {
    ExpandAppendText(a, b, r);
    WeightAppend(a, b, r);
  }

  lemma {:induction false} ExpandAppendText(a: seq<Tok>, b: seq<Tok>, r: seq<seq<Tok>>)
    requires WellFormed(r) && HolesIn(a, |r|) && HolesIn(b, |r|)
    ensures HolesIn(a + b, |r|)
    ensures Expand(a + b, r) == Expand(a, r) + Expand(b, r)
    decreases |a|
  {
    HolesInAppend(a, b, |r|);
    if a == [] {
      assert a + b == b;
    } else {
      assert (a + b)[0] == a[0];
      assert (a + b)[1..] == a[1..] + b;
      HolesInSlice(a, |r|, 1, |a|);
      ExpandAppendText(a[1..], b, r);
    }
  }

  lemma {:induction false} WeightAppend(a: seq<Tok>, b: seq<Tok>, r: seq<seq<Tok>>)
    requires WellFormed(r) && HolesIn(a, |r|) && HolesIn(b, |r|)
    ensures HolesIn(a + b, |r|)
    ensures Weight(a + b, r) == Weight(a, r) + Weight(b, r)
    decreases |a|
  {
    HolesInAppend(a, b, |r|);
    if a == [] {
      assert a + b == b;
    } else {
      assert (a + b)[0] == a[0];
      assert (a + b)[1..] == a[1..] + b;
      HolesInSlice(a, |r|, 1, |a|);
      WeightAppend(a[1..], b, r);
    }
  }

  /** Adding groups to the table does not change what an already valid sequence stands for. */
  lemma {:induction false} ExpandExtend(u: seq<Tok>, r: seq<seq<Tok>>, r': seq<seq<Tok>>)
    requires WellFormed(r') && |r| <= |r'| && r == r'[..|r|] && HolesIn(u, |r|)
    ensures WellFormed(r)
    ensures Expand(u, r) == Expand(u, r') && Weight(u, r) == Weight(u, r')
    decreases |u|
  {
    WellFormedPrefix(r', |r|);
    if u != [] {
      HolesInSlice(u, |r|, 1, |u|);
      ExpandExtend(u[1..], r, r');
      if u[0].Hole? {
        var n := u[0].n;
        assert r[..n - 1] == r'[..n - 1];
        assert r[n - 1] == r'[n - 1];
      }
    }
  }

  /** A placeholder stands for the group it names. */
  lemma ExpandHole(n: nat, r: seq<seq<Tok>>)
    requires WellFormed(r) && 1 <= n <= |r|
    ensures HolesIn([Hole(n)], |r|) && HolesIn(r[n - 1], |r|)
    ensures Expand([Hole(n)], r) == Expand(r[n - 1], r)
    ensures Weight([Hole(n)], r) == 1 + Weight(r[n - 1], r)
  {
    var g, p := r[n - 1], r[..n - 1];
    assert HolesIn(g, n - 1);
    HolesInMono(g, n - 1, |r|);
    assert |p| == n - 1 && p == r[..|p|];
    ExpandExtend(g, p, r);
    ExpandSingle(Hole(n), r);
  }

  /** A one-token sequence stands for what its token stands for. */
  lemma ExpandSingle(x: Tok, r: seq<seq<Tok>>)
    requires WellFormed(r) && (x.Hole? ==> 1 <= x.n <= |r|)
    ensures HolesIn([x], |r|)
    ensures Expand([x], r) == ExpandTok(x, r) && Weight([x], r) == WeightTok(x, r)
  {
    var h := [x];
    assert h[0] == x && h[1..] == [];
  }

  /** Replacing every occurrence of `pat` by a sequence standing for the same text keeps the meaning. */
  lemma {:induction false} ReplaceKeepsMeaning(u: seq<Tok>, pat: seq<Tok>, rep: seq<Tok>, r: seq<seq<Tok>>)
    requires WellFormed(r) && |pat| > 0
    requires HolesIn(u, |r|) && HolesIn(pat, |r|) && HolesIn(rep, |r|)
    requires Expand(pat, r) == Expand(rep, r)
    ensures HolesIn(ReplaceAll(u, pat, rep), |r|)
    ensures Expand(ReplaceAll(u, pat, rep), r) == Expand(u, r)
    decreases |u|
  {
    if |u| < |pat| {
    } else if u[..|pat|] == pat {
      var rest := u[|pat|..];
      assert u == pat + rest;
      HolesInSlice(u, |r|, |pat|, |u|);
      ReplaceKeepsMeaning(rest, pat, rep, r);
      ExpandAppend(pat, rest, r);
      ExpandAppend(rep, ReplaceAll(rest, pat, rep), r);
    } else {
      var rest := u[1..];
      assert u == [u[0]] + rest;
      HolesInSlice(u, |r|, 0, 1);
      HolesInSlice(u, |r|, 1, |u|);
      ReplaceKeepsMeaning(rest, pat, rep, r);
      ExpandAppend([u[0]], rest, r);
      ExpandAppend([u[0]], ReplaceAll(rest, pat, rep), r);
    }
  }

  /**
   * When the replacement weighs less than the pattern, replacing every
   * occurrence does not add weight, and removes some if `pat` occurs at all.
   */
  lemma {:induction false} ReplaceLosesWeight(u: seq<Tok>, pat: seq<Tok>, rep: seq<Tok>, r: seq<seq<Tok>>)
    requires WellFormed(r) && |pat| > 0
    requires HolesIn(u, |r|) && HolesIn(pat, |r|) && HolesIn(rep, |r|)
    requires Weight(rep, r) < Weight(pat, r)
    ensures HolesIn(ReplaceAll(u, pat, rep), |r|)
    ensures Weight(ReplaceAll(u, pat, rep), r) <= Weight(u, r)
    ensures Occurs(pat, u) ==> Weight(ReplaceAll(u, pat, rep), r) < Weight(u, r)
    decreases |u|
  {
    if |u| < |pat| {
      assert forall i :: !OccursAt(pat, u, i);
    } else if u[..|pat|] == pat {
      var rest := u[|pat|..];
      assert u == pat + rest;
      HolesInSlice(u, |r|, |pat|, |u|);
      ReplaceLosesWeight(rest, pat, rep, r);
      ExpandAppend(pat, rest, r);
      ExpandAppend(rep, ReplaceAll(rest, pat, rep), r);
    } else {
      var rest := u[1..];
      assert u == [u[0]] + rest;
      HolesInSlice(u, |r|, 0, 1);
      HolesInSlice(u, |r|, 1, |u|);
      assert !OccursAt(pat, u, 0);
      OccursShift(pat, u);
      if Occurs(pat, u) {
        var i :| OccursAt(pat, u, i);
        assert OccursAt(pat, u[1..], i - 1);
      }
      ReplaceLosesWeight(rest, pat, rep, r);
      ExpandAppend([u[0]], rest, r);
      ExpandAppend([u[0]], ReplaceAll(rest, pat, rep), r);
    }
  }

  // ---------------------------------------------------------------------
  // Innermost groups: the regular expression `\([^()]*\)` of jessc.php:179
  // ---------------------------------------------------------------------

  /** Index of the first parenthesis at or after `i`, or `|t|` when there is none. */
  function NextParen(t: seq<Tok>, i: nat): (p: nat)
    requires i <= |t|
    ensures i <= p <= |t|
    ensures p < |t| ==> IsParen(t[p])
    ensures forall j :: i <= j < p ==> !IsParen(t[j])
    decreases |t| - i
  {
    if i == |t| || IsParen(t[i]) then i else NextParen(t, i + 1)
  }

  /** The pattern matches at `p`: an opening parenthesis whose next parenthesis closes. */
  predicate GroupAt(t: seq<Tok>, p: nat)
  {
    p < |t| && t[p] == Ch('(') && NextParen(t, p + 1) < |t| && t[NextParen(t, p + 1)] == Ch(')')
  }

  /** A text the pattern matches as a whole. */
  predicate IsGroup(m: seq<Tok>)
  {
    |m| >= 2 && m[0] == Ch('(') && m[|m| - 1] == Ch(')') && forall i :: 0 < i < |m| - 1 ==> !IsParen(m[i])
  }

  ghost predicate NoGroup(t: seq<Tok>)
  {
    forall p :: 0 <= p < |t| ==> !GroupAt(t, p)
  }

  /**
   * `preg_match_all` with the pattern, from position `from`: the matched
   * texts, left to right; after a match the search resumes behind it.
   */
  function Groups(t: seq<Tok>, from: nat): (g: seq<seq<Tok>>)
    requires from <= |t|
    ensures forall m :: m in g ==> IsGroup(m) && Occurs(m, t)
    ensures g == [] <==> forall p :: from <= p < |t| ==> !GroupAt(t, p)
    decreases |t| - from
  {
    if from == |t| then []
    else if GroupAt(t, from) then
      var e := NextParen(t, from + 1) + 1;
      assert OccursAt(t[from..e], t, from);
      [t[from..e]] + Groups(t, e)
    else Groups(t, from + 1)
  }

  /** Once no group is left, no opening parenthesis precedes a closing one. */
  lemma {:induction false} NoOpenBeforeClose(t: seq<Tok>, x: nat, y: nat)
    requires NoGroup(t) && x < y < |t|
    ensures !(t[x] == Ch('(') && t[y] == Ch(')'))
    decreases y - x
  {
    if t[x] == Ch('(') && t[y] == Ch(')') {
      var m := NextParen(t, x + 1);
      assert !GroupAt(t, x);
      NoOpenBeforeClose(t, m, y);
    }
  }

  function CountOpen(u: seq<Tok>): nat
  {
    if u == [] then 0 else (if u[0] == Ch('(') then 1 else 0) + CountOpen(u[1..])
  }

  lemma {:induction false} CountOpenAppend(a: seq<Tok>, b: seq<Tok>)
    ensures CountOpen(a + b) == CountOpen(a) + CountOpen(b)
    decreases |a|
  {
    if a == [] {
      assert a + b == b;
    } else {
      assert (a + b)[1..] == a[1..] + b;
      CountOpenAppend(a[1..], b);
    }
  }

  /** Hiding a group behind a placeholder removes an opening parenthesis wherever the group occurs. */
  lemma {:induction false} ReplaceFewerOpen(u: seq<Tok>, pat: seq<Tok>, rep: seq<Tok>)
    requires |pat| > 0 && CountOpen(rep) < CountOpen(pat)
    ensures CountOpen(ReplaceAll(u, pat, rep)) <= CountOpen(u)
    ensures Occurs(pat, u) ==> CountOpen(ReplaceAll(u, pat, rep)) < CountOpen(u)
    decreases |u|
  {
    if |u| < |pat| {
      assert forall i :: !OccursAt(pat, u, i);
    } else if u[..|pat|] == pat {
      var rest := u[|pat|..];
      assert u == pat + rest;
      ReplaceFewerOpen(rest, pat, rep);
      CountOpenAppend(pat, rest);
      CountOpenAppend(rep, ReplaceAll(rest, pat, rep));
    } else {
      var rest := u[1..];
      assert !OccursAt(pat, u, 0);
      OccursShift(pat, u);
      if Occurs(pat, u) {
        var i :| OccursAt(pat, u, i);
        assert OccursAt(pat, u[1..], i - 1);
      }
      ReplaceFewerOpen(rest, pat, rep);
      assert ReplaceAll(u, pat, rep) == [u[0]] + ReplaceAll(rest, pat, rep);
      CountOpenAppend([u[0]], ReplaceAll(rest, pat, rep));
    }
  }

  // ---------------------------------------------------------------------
  // Balanced parentheses and the reference splitter
  // ---------------------------------------------------------------------

  /** Opening minus closing parentheses. */
  function Depth(x: string): int
  {
    if x == [] then 0
    else Depth(x[..|x| - 1]) + (if x[|x| - 1] == '(' then 1 else if x[|x| - 1] == ')' then -1 else 0)
  }

  lemma {:induction false} DepthAppend(a: string, b: string)
    ensures Depth(a + b) == Depth(a) + Depth(b)
    decreases |b|
  {
    if b == [] {
      assert a + b == a;
    } else {
      assert (a + b)[..|a + b| - 1] == a + b[..|b| - 1];
      DepthAppend(a, b[..|b| - 1]);
    }
  }

  /** Every prefix has at least as many openings as closings, and the whole has as many. */
  ghost predicate Balanced(x: string)
  {
    Depth(x) == 0 && forall i :: 0 <= i <= |x| ==> Depth(x[..i]) >= 0
  }

  lemma BalancedAppend(a: string, b: string)
    requires Balanced(a) && Balanced(b)
    ensures Balanced(a + b)
  {
    DepthAppend(a, b);
    forall i | 0 <= i <= |a + b| ensures Depth((a + b)[..i]) >= 0 {
      if i <= |a| {
        assert (a + b)[..i] == a[..i];
      } else {
        assert (a + b)[..i] == a + b[..i - |a|];
        DepthAppend(a, b[..i - |a|]);
      }
    }
  }

  /** A parenthesised text with a balanced inside, like `(a,(b))`. */
  ghost predicate GroupText(x: string)
  {
    |x| >= 2 && x[0] == '(' && x[|x| - 1] == ')' && Balanced(x[1..|x| - 1])
  }

  /** A group is balanced, and every proper non-empty prefix of it is still open. */
  lemma GroupTextDepth(x: string)
    requires GroupText(x)
    ensures Balanced(x)
    ensures forall i :: 1 <= i < |x| ==> Depth(x[..i]) >= 1
  {
    var b := x[1..|x| - 1];
    assert x == "(" + b + ")";
    DepthAppend("(", b);
    DepthAppend("(" + b, ")");
    forall i | 1 <= i < |x| ensures Depth(x[..i]) >= 1 {
      assert x[..i] == "(" + b[..i - 1];
      DepthAppend("(", b[..i - 1]);
    }
    assert x[..|x|] == x;
  }

  lemma BalancedWrap(b: string)
    requires Balanced(b)
    ensures GroupText("(" + b + ")")
  {
    var x := "(" + b + ")";
    assert x[1..|x| - 1] == b;
  }

  /** Positions `j` and `k` of `s` hold a matched pair: `(`, a balanced text, `)`. */
  ghost predicate PairAt(s: string, j: int, k: int)
  {
    0 <= j < k < |s| && s[j] == '(' && s[k] == ')' && Balanced(s[j + 1..k])
  }

  /** Position `i` lies strictly inside a matched pair. */
  ghost predicate Enclosed(s: string, i: int)
  {
    exists j, k :: PairAt(s, j, k) && j < i < k
  }

  /** A comma that no matched pair encloses: the places where the splitter cuts. */
  ghost predicate TopComma(s: string, i: int)
  {
    0 <= i < |s| && s[i] == ',' && !Enclosed(s, i)
  }

  /** The first top-level comma at or after `lo`, or `|s|`. */
  ghost function NextTop(s: string, lo: nat): (p: nat)
    requires lo <= |s|
    ensures lo <= p <= |s|
    ensures p < |s| ==> TopComma(s, p)
    ensures forall i :: lo <= i < p ==> !TopComma(s, i)
    decreases |s| - lo
  {
    if lo == |s| || TopComma(s, lo) then lo else NextTop(s, lo + 1)
  }

  /** `s[lo..]` cut at its top-level commas. */
  ghost function SplitFrom(s: string, lo: nat): seq<string>
    requires lo <= |s|
    decreases |s| - lo
  {
    var p := NextTop(s, lo);
    if p == |s| then [s[lo..]] else [s[lo..p]] + SplitFrom(s, p + 1)
  }

  /** The reference splitter: the input cut at every comma outside matched parentheses. */
  ghost function TopLevelSplit(s: string): seq<string>
  {
    SplitFrom(s, 0)
  }

  /** Each piece trimmed, as `array_map('trim', ...)`. */
  function TrimAll(pieces: seq<string>): (r: seq<string>)
    ensures |r| == |pieces| && forall i :: 0 <= i < |pieces| ==> r[i] == Trim(pieces[i])
  {
    seq(|pieces|, i requires 0 <= i < |pieces| => Trim(pieces[i]))
  }

  /** What `__exploder` returns: the top-level pieces, each trimmed. */
  ghost function ExplodeSpec(s: string): seq<string>
  {
    TrimAll(TopLevelSplit(s))
  }

  // ---------------------------------------------------------------------
  // The hidden groups, and where each token lands in the expanded text
  // ---------------------------------------------------------------------

  /** Every hidden group is a match of the pattern and stands for a parenthesised balanced text. */
  ghost predicate AllGroups(r: seq<seq<Tok>>)
  {
    WellFormed(r) && forall n :: 1 <= n <= |r| ==> GroupEntry(r, n)
  }

  /** Entry `n` of the table is a matched group and placeholder `n` stands for a parenthesised text. */
  ghost predicate GroupEntry(r: seq<seq<Tok>>, n: int)
    requires WellFormed(r) && 1 <= n <= |r|
  {
    IsGroup(r[n - 1]) && GroupText(Expand([Hole(n)], r))
  }

  /** Where token `q` of `t` starts in the expanded text. */
  ghost function Start(t: seq<Tok>, r: seq<seq<Tok>>, q: nat): nat
    requires WellFormed(r) && HolesIn(t, |r|) && q <= |t|
  {
    HolesInSlice(t, |r|, 0, q);
    |Expand(t[..q], r)|
  }

  /** Tokens `a..b` of `t` expand to the text between their start positions. */
  lemma ExpandSlice(t: seq<Tok>, r: seq<seq<Tok>>, a: nat, b: nat)
    requires WellFormed(r) && HolesIn(t, |r|) && a <= b <= |t|
    ensures HolesIn(t[a..b], |r|)
    ensures Start(t, r, a) <= Start(t, r, b) <= |Expand(t, r)|
    ensures Expand(t, r)[Start(t, r, a)..Start(t, r, b)] == Expand(t[a..b], r)
  {
    var x, y, z := t[..a], t[a..b], t[b..];
    HolesInSlice(t, |r|, 0, a);
    HolesInSlice(t, |r|, a, b);
    HolesInSlice(t, |r|, b, |t|);
    assert t[..b] == x + y;
    assert t == x + y + z;
    ExpandThree(x, y, z, r);
    MiddleSlice(Expand(x, r), Expand(y, r), Expand(z, r));
  }

  /** Expanding three consecutive pieces, as two appends. */
  lemma ExpandThree(x: seq<Tok>, y: seq<Tok>, z: seq<Tok>, r: seq<seq<Tok>>)
    requires WellFormed(r) && HolesIn(x, |r|) && HolesIn(y, |r|) && HolesIn(z, |r|)
    ensures HolesIn(x + y, |r|) && HolesIn(x + y + z, |r|)
    ensures Expand(x + y, r) == Expand(x, r) + Expand(y, r)
    ensures Expand(x + y + z, r) == Expand(x, r) + Expand(y, r) + Expand(z, r)
  {
    ExpandAppend(x, y, r);
    ExpandAppend(x + y, z, r);
  }

  lemma MiddleSlice<T>(x: seq<T>, y: seq<T>, z: seq<T>)
    ensures (x + y + z)[|x|..|x| + |y|] == y
  {
  }

  /** The expansion of a single token sits between its own start and the next. */
  lemma TokenSpan(t: seq<Tok>, r: seq<seq<Tok>>, q: nat)
    requires WellFormed(r) && HolesIn(t, |r|) && q < |t|
    ensures HolesIn([t[q]], |r|)
    ensures Start(t, r, q) + |Expand([t[q]], r)| == Start(t, r, q + 1) <= |Expand(t, r)|
    ensures Expand(t, r)[Start(t, r, q)..Start(t, r, q + 1)] == Expand([t[q]], r)
  {
    ExpandSlice(t, r, q, q + 1);
    assert t[q..q + 1] == [t[q]];
  }

  lemma StartEnds(t: seq<Tok>, r: seq<seq<Tok>>)
    requires WellFormed(r) && HolesIn(t, |r|)
    ensures Start(t, r, 0) == 0 && Start(t, r, |t|) == |Expand(t, r)|
  {
    assert t[..0] == [];
    assert t[..|t|] == t;
  }

  lemma ExpandChar(c: char, r: seq<seq<Tok>>)
    requires WellFormed(r)
    ensures HolesIn([Ch(c)], |r|) && Expand([Ch(c)], r) == [c]
  {
  }

  /** Every position of the expanded text lies in the span of exactly one token. */
  lemma Locate(t: seq<Tok>, r: seq<seq<Tok>>, p: nat) returns (q: nat)
    requires WellFormed(r) && HolesIn(t, |r|) && p < |Expand(t, r)|
    ensures q < |t| && Start(t, r, q) <= p < Start(t, r, q + 1)
  {
    StartEnds(t, r);
    q := 0;
    while p >= Start(t, r, q + 1)
      invariant q < |t| && Start(t, r, q) <= p
      decreases |t| - q
    {
      ExpandSlice(t, r, q + 1, |t|);
      q := q + 1;
    }
  }

  /** Starts grow with the token index. */
  lemma StartMono(t: seq<Tok>, r: seq<seq<Tok>>, a: nat, b: nat)
    requires WellFormed(r) && HolesIn(t, |r|) && a <= b <= |t|
    ensures Start(t, r, a) <= Start(t, r, b)
  {
    ExpandSlice(t, r, a, b);
  }

  /** A text that starts inside a group and runs past its end has a prefix with more closings than openings. */
  lemma LeavingGroupUnbalanced(s: string, a: nat, x: string, j: nat, k: nat)
    requires GroupText(x) && a + |x| <= |s| && s[a..a + |x|] == x
    requires a <= j && j + 1 < a + |x| <= k <= |s|
    ensures !Balanced(s[j + 1..k])
  {
    var b := a + |x|;
    GroupTextDepth(x);
    assert s[a..j + 1] == x[..j + 1 - a];
    assert s[a..b] == s[a..j + 1] + s[j + 1..b];
    DepthAppend(s[a..j + 1], s[j + 1..b]);
    assert s[j + 1..k][..b - j - 1] == s[j + 1..b];
  }

  /** A text that starts before a group and stops inside it, after its opening, ends with more openings than closings. */
  lemma EnteringGroupUnbalanced(s: string, a: nat, x: string, j: nat, k: nat)
    requires GroupText(x) && a + |x| <= |s| && s[a..a + |x|] == x
    requires j < a < k < a + |x|
    ensures !Balanced(s[j + 1..k])
  {
    GroupTextDepth(x);
    var inner := s[j + 1..k];
    assert s[a..k] == x[..k - a];
    assert inner == s[j + 1..a] + s[a..k];
    DepthAppend(s[j + 1..a], s[a..k]);
    assert inner[..a - j - 1] == s[j + 1..a];
  }

  /** A matched pair whose opening parenthesis lies inside a group also closes inside it. */
  lemma PairStaysInGroup(s: string, a: nat, x: string, j: nat, k: nat)
    requires GroupText(x) && a + |x| <= |s| && s[a..a + |x|] == x
    requires a <= j < a + |x| && PairAt(s, j, k)
    ensures k < a + |x|
  {
    assert s[a + |x| - 1] == x[|x| - 1];
    if a + |x| <= k {
      LeavingGroupUnbalanced(s, a, x, j, k);
    }
  }

  /** Symmetrically, a pair closing inside a group opens inside it. */
  lemma PairOpensInGroup(s: string, a: nat, x: string, j: nat, k: nat)
    requires GroupText(x) && a + |x| <= |s| && s[a..a + |x|] == x
    requires a <= k < a + |x| && PairAt(s, j, k)
    ensures a <= j
  {
    assert s[a] == x[0];
    if j < a {
      EnteringGroupUnbalanced(s, a, x, j, k);
    }
  }

  /**
   * `st[q]` is where token `q` of `t` starts in `s`: plain characters are
   * one character wide and stand for themselves, placeholders stand for
   * parenthesised balanced texts.
   */
  ghost predicate Layout(t: seq<Tok>, s: string, st: seq<nat>)
  {
    && |st| == |t| + 1 && st[0] == 0 && st[|t|] == |s|
    && (forall a, b :: 0 <= a <= b <= |t| ==> st[a] <= st[b])
    && (forall q :: 0 <= q < |t| && t[q].Ch? ==> st[q] + 1 == st[q + 1] && s[st[q]] == t[q].c)
    && (forall q :: 0 <= q < |t| && t[q].Hole? ==> GroupText(s[st[q]..st[q + 1]]))
  }

  ghost function Starts(t: seq<Tok>, r: seq<seq<Tok>>): (st: seq<nat>)
    requires WellFormed(r) && HolesIn(t, |r|)
    ensures |st| == |t| + 1 && forall q :: 0 <= q <= |t| ==> st[q] == Start(t, r, q)
  {
    seq(|t| + 1, q requires 0 <= q <= |t| => Start(t, r, q))
  }

  lemma StartsMono(t: seq<Tok>, r: seq<seq<Tok>>)
    requires WellFormed(r) && HolesIn(t, |r|)
    ensures var st := Starts(t, r); forall a, b :: 0 <= a <= b <= |t| ==> st[a] <= st[b]
  {
    forall a, b | 0 <= a <= b <= |t| ensures Start(t, r, a) <= Start(t, r, b) {
      StartMono(t, r, a, b);
    }
  }

  lemma StartsChars(t: seq<Tok>, r: seq<seq<Tok>>)
    requires WellFormed(r) && HolesIn(t, |r|)
    ensures forall q :: 0 <= q < |t| && t[q].Ch? ==>
      Starts(t, r)[q] + 1 == Starts(t, r)[q + 1] <= |Expand(t, r)| && Expand(t, r)[Starts(t, r)[q]] == t[q].c
  {
    forall q | 0 <= q < |t| && t[q].Ch?
      ensures Start(t, r, q) + 1 == Start(t, r, q + 1) <= |Expand(t, r)| && Expand(t, r)[Start(t, r, q)] == t[q].c
    {
      CharSpan(t, r, q);
    }
  }

  lemma CharSpan(t: seq<Tok>, r: seq<seq<Tok>>, q: nat)
    requires WellFormed(r) && HolesIn(t, |r|) && q < |t| && t[q].Ch?
    ensures Start(t, r, q) + 1 == Start(t, r, q + 1) <= |Expand(t, r)| && Expand(t, r)[Start(t, r, q)] == t[q].c
  {
    TokenSpan(t, r, q);
    assert t[q] == Ch(t[q].c);
    ExpandChar(t[q].c, r);
    var x := Expand(t, r)[Start(t, r, q)..Start(t, r, q + 1)];
    assert x == [t[q].c];
    assert x[0] == Expand(t, r)[Start(t, r, q)];
  }

  lemma StartsHoles(t: seq<Tok>, r: seq<seq<Tok>>)
    requires AllGroups(r) && HolesIn(t, |r|)
    ensures forall q :: 0 <= q < |t| && t[q].Hole? ==>
      Starts(t, r)[q] <= Starts(t, r)[q + 1] <= |Expand(t, r)| && GroupText(Expand(t, r)[Starts(t, r)[q]..Starts(t, r)[q + 1]])
  {
    forall q | 0 <= q < |t| && t[q].Hole?
      ensures Start(t, r, q) <= Start(t, r, q + 1) <= |Expand(t, r)|
      ensures GroupText(Expand(t, r)[Start(t, r, q)..Start(t, r, q + 1)])
    {
      TokenSpan(t, r, q);
      assert t[q] == Hole(t[q].n);
      assert GroupEntry(r, t[q].n);
    }
  }

  /** The start positions of the tokens of `t` form a layout of its expansion. */
  lemma LayoutOf(t: seq<Tok>, r: seq<seq<Tok>>)
    requires AllGroups(r) && HolesIn(t, |r|)
    ensures Layout(t, Expand(t, r), Starts(t, r))
  {
    StartEnds(t, r);
    StartsMono(t, r);
    StartsChars(t, r);
    StartsHoles(t, r);
  }

  /** Every position of the text lies in the span of one token. */
  lemma LayoutLocate(t: seq<Tok>, s: string, st: seq<nat>, p: nat) returns (q: nat)
    requires Layout(t, s, st) && p < |s|
    ensures q < |t| && st[q] <= p < st[q + 1]
  {
    q := 0;
    while p >= st[q + 1]
      invariant q < |t| && st[q] <= p
      decreases |t| - q
    {
      q := q + 1;
    }
  }

  /** A comma strictly inside a group sitting in `s` is enclosed. */
  lemma GroupEncloses(s: string, a: nat, x: string, p: nat)
    requires GroupText(x) && a + |x| <= |s| && s[a..a + |x|] == x
    requires a <= p < a + |x| && s[p] == ','
    ensures Enclosed(s, p)
  {
    var b := a + |x|;
    assert s[a] == x[0] && s[b - 1] == x[|x| - 1];
    var inner := s[a + 1..b - 1];
    forall i | 0 <= i < |inner| ensures inner[i] == x[1..|x| - 1][i] {
      assert inner[i] == s[a..b][i + 1];
    }
    assert inner == x[1..|x| - 1];
    assert PairAt(s, a, b - 1);
  }

  /** A pair opening at a plain `(` token before a comma token cannot close after it. */
  lemma OpenCharPairBeforeComma(t: seq<Tok>, s: string, st: seq<nat>, q: nat, qj: nat, j: nat, k: nat)
    requires Layout(t, s, st) && NoGroup(t) && q < |t| && t[q] == Ch(',')
    requires qj < q && t[qj] == Ch('(')
    requires PairAt(s, j, k) && j < st[q]
    ensures k < st[q]
  {
    if k > st[q] {
      var qk := LayoutLocate(t, s, st, k);
      assert qk > q;
      if t[qk].Hole? {
        var x := s[st[qk]..st[qk + 1]];
        PairOpensInGroup(s, st[qk], x, j, k);
      } else {
        NoOpenBeforeClose(t, qj, qk);
      }
    }
  }

  /** A matched pair that opens before a comma token closes before it too. */
  lemma PairBeforeComma(t: seq<Tok>, s: string, st: seq<nat>, q: nat, j: nat, k: nat)
    requires Layout(t, s, st) && NoGroup(t) && q < |t| && t[q] == Ch(',')
    requires PairAt(s, j, k) && j < st[q]
    ensures k < st[q]
  {
    var qj := LayoutLocate(t, s, st, j);
    assert qj < q;
    if t[qj].Hole? {
      var x := s[st[qj]..st[qj + 1]];
      PairStaysInGroup(s, st[qj], x, j, k);
    } else {
      OpenCharPairBeforeComma(t, s, st, q, qj, j, k);
    }
  }

  /** A comma token of the protected text is a top-level comma of the text it stands for. */
  lemma CommaTokenIsTop(t: seq<Tok>, s: string, st: seq<nat>, q: nat)
    requires Layout(t, s, st) && NoGroup(t) && q < |t| && t[q] == Ch(',')
    ensures TopComma(s, st[q])
  {
    assert st[q] + 1 == st[q + 1] <= st[|t|];
    forall j, k | PairAt(s, j, k) && j < st[q]
      ensures k < st[q]
    {
      PairBeforeComma(t, s, st, q, j, k);
    }
  }

  /** A comma inside a placeholder's text is enclosed. */
  lemma HoleCommaEnclosed(t: seq<Tok>, s: string, st: seq<nat>, q: nat, p: nat)
    requires Layout(t, s, st) && q < |t| && t[q].Hole?
    requires st[q] <= p < st[q + 1] && s[p] == ','
    ensures Enclosed(s, p)
  {
    GroupEncloses(s, st[q], s[st[q]..st[q + 1]], p);
  }

  // ---------------------------------------------------------------------
  // Splitting the protected text: `explode(',', ...)` of jessc.php:193
  // ---------------------------------------------------------------------

  /** The first comma token at or after `q`, or `|t|`. */
  function FirstComma(t: seq<Tok>, q: nat): (c: nat)
    requires q <= |t|
    ensures q <= c <= |t|
    ensures c < |t| ==> t[c] == Ch(',')
    ensures forall i :: q <= i < c ==> t[i] != Ch(',')
    decreases |t| - q
  {
    if q == |t| || t[q] == Ch(',') then q else FirstComma(t, q + 1)
  }

  /** `explode(',', ...)` on the tokens from `q` on: the pieces between comma tokens. */
  function SplitTok(t: seq<Tok>, q: nat): (ps: seq<seq<Tok>>)
    requires q <= |t|
    ensures |ps| >= 1
    decreases |t| - q
  {
    var c := FirstComma(t, q);
    if c == |t| then [t[q..]] else [t[q..c]] + SplitTok(t, c + 1)
  }

  /** Joined with commas, the pieces give back the tokens they were cut from. */
  lemma {:induction false} SplitTokJoin(t: seq<Tok>, q: nat)
    requires q <= |t|
    ensures Join(SplitTok(t, q), [Ch(',')]) == t[q..]
    decreases |t| - q
  {
    var c := FirstComma(t, q);
    if c < |t| {
      var ps := SplitTok(t, q);
      SplitTokJoin(t, c + 1);
      assert |ps| >= 2 && ps[0] == t[q..c] && ps[1..] == SplitTok(t, c + 1);
      assert t[q..] == t[q..c] + [t[c]] + t[c + 1..];
    }
  }

  /** No token of `p` is a comma. */
  predicate CommaFree(p: seq<Tok>)
  {
    forall k :: 0 <= k < |p| ==> p[k] != Ch(',')
  }

  /** No piece holds a comma token. */
  lemma {:induction false} SplitTokCommaFree(t: seq<Tok>, q: nat)
    requires q <= |t|
    ensures forall i :: 0 <= i < |SplitTok(t, q)| ==> CommaFree(SplitTok(t, q)[i])
    decreases |t| - q
  {
    var c := FirstComma(t, q);
    assert CommaFree(t[q..c]);
    if c < |t| {
      SplitTokCommaFree(t, c + 1);
    }
  }

  lemma {:induction false} SplitTokHoles(t: seq<Tok>, q: nat, b: nat)
    requires q <= |t| && HolesIn(t, b)
    ensures forall i :: 0 <= i < |SplitTok(t, q)| ==> HolesIn(SplitTok(t, q)[i], b)
    decreases |t| - q
  {
    var c := FirstComma(t, q);
    if c == |t| {
      HolesInSlice(t, b, q, |t|);
    } else {
      HolesInSlice(t, b, q, c);
      SplitTokHoles(t, c + 1, b);
    }
  }

  ghost function ExpandAll(ps: seq<seq<Tok>>, r: seq<seq<Tok>>): (xs: seq<string>)
    requires WellFormed(r) && forall i :: 0 <= i < |ps| ==> HolesIn(ps[i], |r|)
    ensures |xs| == |ps| && forall i :: 0 <= i < |ps| ==> xs[i] == Expand(ps[i], r)
  {
    seq(|ps|, i requires 0 <= i < |ps| => Expand(ps[i], r))
  }

  /** Skipping positions that hold no top-level comma does not move the next one. */
  lemma NextTopSkip(s: string, lo: nat, hi: nat)
    requires lo <= hi <= |s| && forall p :: lo <= p < hi ==> !TopComma(s, p)
    ensures NextTop(s, lo) == NextTop(s, hi)
  {
  }

  /** The next comma token lands exactly on the next top-level comma of the text. */
  lemma {:induction false} NextTopMatches(t: seq<Tok>, s: string, st: seq<nat>, q: nat)
    requires Layout(t, s, st) && NoGroup(t) && q <= |t|
    ensures NextTop(s, st[q]) == st[FirstComma(t, q)]
    decreases |t| - q
  {
    if q < |t| {
      if t[q] == Ch(',') {
        CommaTokenIsTop(t, s, st, q);
      } else {
        NextTopMatches(t, s, st, q + 1);
        forall p | st[q] <= p < st[q + 1] ensures !TopComma(s, p) {
          if t[q].Hole? && p < |s| && s[p] == ',' {
            HoleCommaEnclosed(t, s, st, q, p);
          }
        }
        NextTopSkip(s, st[q], st[q + 1]);
      }
    }
  }

  /** `st` holds ascending cut positions of `s`, one per token boundary of `t`. */
  ghost predicate Cuts(t: seq<Tok>, s: string, st: seq<nat>)
  {
    |st| == |t| + 1 && st[|t|] == |s| && forall a, b :: 0 <= a <= b <= |t| ==> st[a] <= st[b]
  }

  /** The text cut at the positions of the comma tokens from `q` on. */
  ghost function SliceSplit(t: seq<Tok>, s: string, st: seq<nat>, q: nat): seq<string>
    requires Cuts(t, s, st) && q <= |t|
    decreases |t| - q
  {
    var c := FirstComma(t, q);
    if c == |t| then [s[st[q]..]] else [s[st[q]..st[c]]] + SliceSplit(t, s, st, c + 1)
  }

  /** Cutting at the comma tokens is cutting at the top-level commas. */
  lemma {:induction false} SliceSplitIsTopLevel(t: seq<Tok>, s: string, st: seq<nat>, q: nat)
    requires Layout(t, s, st) && NoGroup(t) && q <= |t|
    ensures SliceSplit(t, s, st, q) == SplitFrom(s, st[q])
    decreases |t| - q
  {
    NextTopMatches(t, s, st, q);
    var c := FirstComma(t, q);
    if c < |t| {
      SliceSplitIsTopLevel(t, s, st, c + 1);
      SliceSplitStep(t, s, st, q, c, c + 1);
    } else {
      SliceSplitLast(t, s, st, q);
    }
  }

  lemma SliceSplitLast(t: seq<Tok>, s: string, st: seq<nat>, q: nat)
    requires Cuts(t, s, st) && q <= |t| && FirstComma(t, q) == |t| && NextTop(s, st[q]) == |s|
    ensures SliceSplit(t, s, st, q) == SplitFrom(s, st[q])
  {
  }

  lemma SliceSplitStep(t: seq<Tok>, s: string, st: seq<nat>, q: nat, c: nat, d: nat)
    requires Cuts(t, s, st) && q <= |t| && c == FirstComma(t, q) < |t| && d == c + 1
    requires NextTop(s, st[q]) == st[c] && st[c] + 1 == st[d]
    requires SliceSplit(t, s, st, d) == SplitFrom(s, st[d])
    ensures SliceSplit(t, s, st, q) == SplitFrom(s, st[q])
  {
    SliceSplitUnfold(t, s, st, q, c, d);
    SplitFromUnfold(s, st[q], st[c], st[d]);
  }

  lemma SliceSplitUnfold(t: seq<Tok>, s: string, st: seq<nat>, q: nat, c: nat, d: nat)
    requires Cuts(t, s, st) && q <= |t| && c == FirstComma(t, q) < |t| && d == c + 1
    ensures SliceSplit(t, s, st, q) == [s[st[q]..st[c]]] + SliceSplit(t, s, st, d)
  {
  }

  lemma SplitFromUnfold(s: string, lo: nat, p: nat, p': nat)
    requires lo <= |s| && p == NextTop(s, lo) < |s| && p' == p + 1
    ensures SplitFrom(s, lo) == [s[lo..p]] + SplitFrom(s, p')
  {
  }

  /** Tokens `a..b` of `t` stand for the text of `s` between cuts `a` and `b`. */
  ghost predicate SliceExpands(t: seq<Tok>, r: seq<seq<Tok>>, s: string, st: seq<nat>, a: int, b: int)
    requires WellFormed(r) && Cuts(t, s, st)
  {
    0 <= a <= b <= |t| && HolesIn(t[a..b], |r|) && s[st[a]..st[b]] == Expand(t[a..b], r)
  }

  ghost predicate SlicesExpand(t: seq<Tok>, r: seq<seq<Tok>>, s: string, st: seq<nat>)
    requires WellFormed(r) && Cuts(t, s, st)
  {
    forall a, b :: 0 <= a <= b <= |t| ==> SliceExpands(t, r, s, st, a, b)
  }

  /** The start positions of the tokens cut the expansion into the texts of the token ranges. */
  lemma StartsSlices(t: seq<Tok>, r: seq<seq<Tok>>)
    requires AllGroups(r) && HolesIn(t, |r|)
    ensures Layout(t, Expand(t, r), Starts(t, r)) && Cuts(t, Expand(t, r), Starts(t, r))
    ensures SlicesExpand(t, r, Expand(t, r), Starts(t, r))
  {
    LayoutOf(t, r);
    forall a, b | 0 <= a <= b <= |t| ensures SliceExpands(t, r, Expand(t, r), Starts(t, r), a, b) {
      ExpandSlice(t, r, a, b);
    }
  }

  /** The restored pieces of `explode` and the cut text agree from `q` on, if they agree after the next comma. */
  lemma SplitTokStep(t: seq<Tok>, r: seq<seq<Tok>>, s: string, st: seq<nat>, q: nat, c: nat, d: nat)
    requires WellFormed(r) && Cuts(t, s, st) && q <= |t| && c == FirstComma(t, q) < |t| && d == c + 1
    requires HolesIn(t[q..c], |r|) && s[st[q]..st[c]] == Expand(t[q..c], r)
    requires forall i :: 0 <= i < |SplitTok(t, q)| ==> HolesIn(SplitTok(t, q)[i], |r|)
    requires forall i :: 0 <= i < |SplitTok(t, d)| ==> HolesIn(SplitTok(t, d)[i], |r|)
    requires |SplitTok(t, d)| == |SliceSplit(t, s, st, d)|
    requires forall i :: 0 <= i < |SplitTok(t, d)| ==> Expand(SplitTok(t, d)[i], r) == SliceSplit(t, s, st, d)[i]
    ensures |SplitTok(t, q)| == |SliceSplit(t, s, st, q)|
    ensures forall i :: 0 <= i < |SplitTok(t, q)| ==> Expand(SplitTok(t, q)[i], r) == SliceSplit(t, s, st, q)[i]
  {
    var ps, rest := SplitTok(t, q), SplitTok(t, d);
    var ys := SliceSplit(t, s, st, q);
    assert ps == [t[q..c]] + rest;
    assert ys == [s[st[q]..st[c]]] + SliceSplit(t, s, st, d);
    forall i | 0 <= i < |ps| ensures Expand(ps[i], r) == ys[i] {
      if i > 0 {
        assert ps[i] == rest[i - 1];
      }
    }
  }

  /** Restoring the pieces of `explode` gives the text cut at the comma tokens. */
  lemma {:induction false} SplitTokExpand(t: seq<Tok>, r: seq<seq<Tok>>, s: string, st: seq<nat>, q: nat)
    requires WellFormed(r) && HolesIn(t, |r|) && q <= |t|
    requires Cuts(t, s, st) && SlicesExpand(t, r, s, st)
    ensures forall i :: 0 <= i < |SplitTok(t, q)| ==> HolesIn(SplitTok(t, q)[i], |r|)
    ensures |SplitTok(t, q)| == |SliceSplit(t, s, st, q)|
    ensures forall i :: 0 <= i < |SplitTok(t, q)| ==> Expand(SplitTok(t, q)[i], r) == SliceSplit(t, s, st, q)[i]
    decreases |t| - q
  {
    var c := FirstComma(t, q);
    SplitTokHoles(t, q, |r|);
    assert SliceExpands(t, r, s, st, q, c);
    if c == |t| {
      assert t[q..c] == t[q..];
    } else {
      SplitTokExpand(t, r, s, st, c + 1);
      SplitTokStep(t, r, s, st, q, c, c + 1);
    }
  }

  // ---------------------------------------------------------------------
  // Trimming the protected pieces: `array_map('trim', ...)` of jessc.php:193
  // ---------------------------------------------------------------------

  function TrimTokStart(u: seq<Tok>): (v: seq<Tok>)
    ensures |v| <= |u| && v == u[|u| - |v|..]
  {
    if u != [] && u[0].Ch? && IsTrimSpace(u[0].c) then TrimTokStart(u[1..]) else u
  }

  function TrimTokEnd(u: seq<Tok>): (v: seq<Tok>)
    ensures |v| <= |u| && v == u[..|v|]
  {
    if u != [] && u[|u| - 1].Ch? && IsTrimSpace(u[|u| - 1].c) then TrimTokEnd(u[..|u| - 1]) else u
  }

  /** `trim` on a protected piece: placeholders are never whitespace. */
  function TrimTok(u: seq<Tok>): seq<Tok>
  {
    TrimTokEnd(TrimTokStart(u))
  }

  /** A placeholder's text opens with `(` and closes with `)`. */
  lemma HoleEnds(n: nat, r: seq<seq<Tok>>)
    requires AllGroups(r) && 1 <= n <= |r|
    ensures HolesIn([Hole(n)], |r|)
    ensures var x := Expand([Hole(n)], r); |x| >= 2 && x[0] == '(' && x[|x| - 1] == ')'
  {
    assert GroupEntry(r, n);
  }

  /** The text of a non-empty sequence starts with its first character, or with `(` for a placeholder. */
  lemma {:induction false} ExpandFirst(u: seq<Tok>, r: seq<seq<Tok>>)
    requires AllGroups(r) && HolesIn(u, |r|) && u != []
    ensures HolesIn(u[1..], |r|)
    ensures |Expand(u, r)| > 0 && Expand(u, r)[0] == (if u[0].Ch? then u[0].c else '(')
    ensures u[0].Ch? ==> Expand(u, r)[1..] == Expand(u[1..], r)
  {
    HolesInSlice(u, |r|, 0, 1);
    HolesInSlice(u, |r|, 1, |u|);
    assert u == [u[0]] + u[1..];
    ExpandAppend([u[0]], u[1..], r);
    if u[0].Ch? {
      ExpandChar(u[0].c, r);
    } else {
      HoleEnds(u[0].n, r);
      assert u[0] == Hole(u[0].n);
    }
  }

  /** The text of a non-empty sequence ends with its last character, or with `)` for a placeholder. */
  lemma {:induction false} ExpandSnoc(u: seq<Tok>, r: seq<seq<Tok>>)
    requires WellFormed(r) && HolesIn(u, |r|) && u != []
    ensures HolesIn(u[..|u| - 1], |r|) && HolesIn([u[|u| - 1]], |r|)
    ensures Expand(u, r) == Expand(u[..|u| - 1], r) + Expand([u[|u| - 1]], r)
  {
    var init, last := u[..|u| - 1], u[|u| - 1];
    HolesInSlice(u, |r|, 0, |u| - 1);
    HolesInSlice(u, |r|, |u| - 1, |u|);
    assert u == init + [last];
    assert u[|u| - 1..] == [last];
    ExpandAppend(init, [last], r);
  }

  lemma {:induction false} ExpandLast(u: seq<Tok>, r: seq<seq<Tok>>)
    requires AllGroups(r) && HolesIn(u, |r|) && u != []
    ensures HolesIn(u[..|u| - 1], |r|)
    ensures |Expand(u, r)| > 0
    ensures Expand(u, r)[|Expand(u, r)| - 1] == (if u[|u| - 1].Ch? then u[|u| - 1].c else ')')
    ensures u[|u| - 1].Ch? ==> Expand(u, r)[..|Expand(u, r)| - 1] == Expand(u[..|u| - 1], r)
  {
    ExpandSnoc(u, r);
    var last := u[|u| - 1];
    if last.Ch? {
      ExpandChar(last.c, r);
      SnocParts(Expand(u[..|u| - 1], r), [last.c], Expand(u, r));
    } else {
      LastHoleText(u, r);
    }
  }

  lemma LastHoleText(u: seq<Tok>, r: seq<seq<Tok>>)
    requires AllGroups(r) && HolesIn(u, |r|) && u != [] && u[|u| - 1].Hole?
    ensures HolesIn(u[..|u| - 1], |r|)
    ensures |Expand(u, r)| > 0 && Expand(u, r)[|Expand(u, r)| - 1] == ')'
  {
    ExpandSnoc(u, r);
    var n := u[|u| - 1].n;
    HoleEnds(n, r);
    assert [u[|u| - 1]] == [Hole(n)];
    SnocParts(Expand(u[..|u| - 1], r), Expand([Hole(n)], r), Expand(u, r));
  }

  lemma SnocParts(a: string, b: string, x: string)
    requires x == a + b && |b| > 0
    ensures |x| > 0 && x[|x| - 1] == b[|b| - 1]
    ensures |b| == 1 ==> x[..|x| - 1] == a
  {
    if |b| == 1 {
      assert x[..|x| - 1] == a;
    }
  }

  lemma {:induction false} TrimTokStartExpand(u: seq<Tok>, r: seq<seq<Tok>>)
    requires AllGroups(r) && HolesIn(u, |r|)
    ensures HolesIn(TrimTokStart(u), |r|)
    ensures Expand(TrimTokStart(u), r) == TrimStart(Expand(u, r))
    decreases |u|
  {
    HolesInSlice(u, |r|, |u| - |TrimTokStart(u)|, |u|);
    if u != [] {
      ExpandFirst(u, r);
      var x := Expand(u, r);
      if u[0].Ch? && IsTrimSpace(u[0].c) {
        TrimTokStartExpand(u[1..], r);
        TrimStartSkips(x);
      } else {
        TrimStartKeeps(x);
      }
    }
  }

  lemma {:induction false} TrimTokEndExpand(u: seq<Tok>, r: seq<seq<Tok>>)
    requires AllGroups(r) && HolesIn(u, |r|)
    ensures HolesIn(TrimTokEnd(u), |r|)
    ensures Expand(TrimTokEnd(u), r) == TrimEnd(Expand(u, r))
    decreases |u|
  {
    HolesInSlice(u, |r|, 0, |TrimTokEnd(u)|);
    if u != [] {
      ExpandLast(u, r);
      var x := Expand(u, r);
      var last := u[|u| - 1];
      if last.Ch? && IsTrimSpace(last.c) {
        TrimTokEndExpand(u[..|u| - 1], r);
        TrimEndSkips(x);
      } else {
        TrimEndKeeps(x);
      }
    }
  }

  /** Trimming the protected piece and then restoring it is the same as restoring and then trimming. */
  lemma TrimTokExpand(u: seq<Tok>, r: seq<seq<Tok>>)
    requires AllGroups(r) && HolesIn(u, |r|)
    ensures HolesIn(TrimTok(u), |r|)
    ensures Expand(TrimTok(u), r) == Trim(Expand(u, r))
  {
    TrimTokStartExpand(u, r);
    TrimTokEndExpand(TrimTokStart(u), r);
  }

  // ---------------------------------------------------------------------
  // One protection step and one restoration step
  // ---------------------------------------------------------------------

  /** The tokens between a group's parentheses stand for a balanced text. */
  lemma {:induction false} InsideBalanced(mid: seq<Tok>, r: seq<seq<Tok>>)
    requires AllGroups(r) && HolesIn(mid, |r|)
    requires forall i :: 0 <= i < |mid| ==> !IsParen(mid[i])
    ensures Balanced(Expand(mid, r))
    decreases |mid|
  {
    if mid != [] {
      HolesInSlice(mid, |r|, 0, 1);
      HolesInSlice(mid, |r|, 1, |mid|);
      assert mid == [mid[0]] + mid[1..];
      ExpandAppend([mid[0]], mid[1..], r);
      InsideBalanced(mid[1..], r);
      var head := Expand([mid[0]], r);
      if mid[0].Ch? {
        ExpandChar(mid[0].c, r);
        assert head[..0] == [] && head[..1] == head;
        assert Balanced(head);
      } else {
        assert mid[0] == Hole(mid[0].n);
        assert GroupEntry(r, mid[0].n);
        GroupTextDepth(head);
      }
      BalancedAppend(head, Expand(mid[1..], r));
    }
  }

  /** A matched group stands for a parenthesised balanced text. */
  lemma GroupExpansion(m: seq<Tok>, r: seq<seq<Tok>>)
    requires AllGroups(r) && IsGroup(m) && HolesIn(m, |r|)
    ensures GroupText(Expand(m, r))
  {
    var mid := m[1..|m| - 1];
    HolesInSlice(m, |r|, 1, |m| - 1);
    assert m == [Ch('(')] + mid + [Ch(')')];
    ExpandChar('(', r);
    ExpandChar(')', r);
    ExpandAppend([Ch('(')], mid, r);
    ExpandAppend([Ch('(')] + mid, [Ch(')')], r);
    InsideBalanced(mid, r);
    BalancedWrap(Expand(mid, r));
  }

  /** Adding a matched group to the table keeps every entry a group standing for a parenthesised text. */
  lemma AllGroupsExtend(r: seq<seq<Tok>>, m: seq<Tok>, r': seq<seq<Tok>>)
    requires AllGroups(r) && IsGroup(m) && HolesIn(m, |r|) && r' == r + [m]
    ensures AllGroups(r')
  {
    assert WellFormed(r') by {
      forall i | 0 <= i < |r'| ensures HolesIn(r'[i], i) {
        if i < |r| { assert r'[i] == r[i]; }
      }
    }
    assert r'[..|r|] == r;
    forall n | 1 <= n <= |r'| ensures GroupEntry(r', n) {
      if n <= |r| {
        assert r'[n - 1] == r[n - 1];
        ExpandExtend([Hole(n)], r, r');
        assert GroupEntry(r, n);
      } else {
        assert r'[n - 1] == m;
        ExpandHole(n, r');
        ExpandExtend(m, r, r');
        GroupExpansion(m, r);
      }
    }
  }

  /** A group found in the text becomes group number |r|+1, and every occurrence of it a placeholder. */
  lemma ProtectStep(t: seq<Tok>, r: seq<seq<Tok>>, m: seq<Tok>)
    requires AllGroups(r) && HolesIn(t, |r|) && IsGroup(m) && HolesIn(m, |r|)
    ensures AllGroups(r + [m])
    ensures HolesIn(ReplaceAll(t, m, [Hole(|r| + 1)]), |r| + 1)
    ensures Expand(ReplaceAll(t, m, [Hole(|r| + 1)]), r + [m]) == Expand(t, r)
    ensures CountOpen(ReplaceAll(t, m, [Hole(|r| + 1)])) <= CountOpen(t)
    ensures Occurs(m, t) ==> CountOpen(ReplaceAll(t, m, [Hole(|r| + 1)])) < CountOpen(t)
  {
    var r' := r + [m];
    var k := |r'|;
    AllGroupsExtend(r, m, r');
    assert r'[..|r|] == r;
    assert r'[k - 1] == m;
    ExpandHole(k, r');
    ExpandExtend(m, r, r');
    ExpandExtend(t, r, r');
    ReplaceKeepsMeaning(t, m, [Hole(k)], r');
    assert CountOpen(m) >= 1 by {
      assert m[0] == Ch('(');
    }
    assert CountOpen([Hole(k)]) == 0;
    ReplaceFewerOpen(t, m, [Hole(k)]);
  }

  /** Replacing every occurrence of a present placeholder by its group keeps the meaning and loses weight. */
  lemma RestoreStep(a: seq<Tok>, r: seq<seq<Tok>>, i: nat)
    requires WellFormed(r) && HolesIn(a, |r|) && i < |a| && a[i].Hole?
    ensures 1 <= a[i].n <= |r|
    ensures HolesIn(ReplaceAll(a, [a[i]], r[a[i].n - 1]), |r|)
    ensures Expand(ReplaceAll(a, [a[i]], r[a[i].n - 1]), r) == Expand(a, r)
    ensures Weight(ReplaceAll(a, [a[i]], r[a[i].n - 1]), r) < Weight(a, r)
  {
    var n := a[i].n;
    ExpandHole(n, r);
    assert [a[i]] == [Hole(n)];
    assert OccursAt([a[i]], a, i);
    ReplaceKeepsMeaning(a, [a[i]], r[n - 1], r);
    ReplaceLosesWeight(a, [a[i]], r[n - 1], r);
  }

  predicate HasHole(a: seq<Tok>)
  {
    exists i :: 0 <= i < |a| && a[i].Hole?
  }

  /** The first placeholder of `a`, as `preg_match('/{{(\d+)}}/', ...)` finds it. */
  function FirstHole(a: seq<Tok>): (i: nat)
    requires HasHole(a)
    ensures i < |a| && a[i].Hole? && forall j :: 0 <= j < i ==> a[j].Ch?
  {
    if a[0].Hole? then 0 else
      assert HasHole(a[1..]) by {
        var j :| 0 <= j < |a| && a[j].Hole?;
        assert a[1..][j - 1] == a[j];
      }
      1 + FirstHole(a[1..])
  }

  /** The characters of a piece with no placeholder left. */
  function Plain(a: seq<Tok>): (s: string)
    requires !HasHole(a)
    ensures |s| == |a|
  {
    seq(|a|, i requires 0 <= i < |a| => a[i].c)
  }

  lemma {:induction false} PlainExpand(a: seq<Tok>, r: seq<seq<Tok>>)
    requires WellFormed(r) && !HasHole(a)
    ensures HolesIn(a, |r|) && Expand(a, r) == Plain(a)
    decreases |a|
  {
    if a != [] {
      assert !HasHole(a[1..]) by {
        forall j | 0 <= j < |a[1..]| ensures !a[1..][j].Hole? {
          assert a[1..][j] == a[j + 1];
        }
      }
      PlainExpand(a[1..], r);
      assert Plain(a) == [a[0].c] + Plain(a[1..]);
    }
  }

  lemma CharsExpand(s: string)
    ensures !HasHole(Chars(s)) && HolesIn(Chars(s), 0)
    ensures Expand(Chars(s), []) == s
  {
    PlainExpand(Chars(s), []);
    assert Plain(Chars(s)) == s;
  }

  /** A group found in the text has its placeholders among those of the text. */
  lemma OccursHoles(m: seq<Tok>, t: seq<Tok>, b: nat)
    requires Occurs(m, t) && HolesIn(t, b)
    ensures HolesIn(m, b)
  {
    var i :| OccursAt(m, t, i);
    HolesInSlice(t, b, i, i + |m|);
  }

  /** `array_map('trim', explode(',', ...))` on the protected text. */
  function TrimmedPieces(t: seq<Tok>): (ps: seq<seq<Tok>>)
    ensures |ps| == |SplitTok(t, 0)| && forall k :: 0 <= k < |ps| ==> ps[k] == TrimTok(SplitTok(t, 0)[k])
  {
    var parts := SplitTok(t, 0);
    seq(|parts|, k requires 0 <= k < |parts| => TrimTok(parts[k]))
  }

  /** Once no group is left, splitting, trimming and restoring the pieces gives the reference pieces. */
  lemma ProtectedSplit(t: seq<Tok>, r: seq<seq<Tok>>)
    requires AllGroups(r) && HolesIn(t, |r|) && NoGroup(t)
    ensures forall k :: 0 <= k < |TrimmedPieces(t)| ==> HolesIn(TrimmedPieces(t)[k], |r|)
    ensures ExpandAll(TrimmedPieces(t), r) == ExplodeSpec(Expand(t, r))
  {
    var s, st := Expand(t, r), Starts(t, r);
    StartsSlices(t, r);
    SplitTokExpand(t, r, s, st, 0);
    SliceSplitIsTopLevel(t, s, st, 0);
    var ps := SplitTok(t, 0);
    var out := TrimmedPieces(t);
    forall k | 0 <= k < |ps|
      ensures HolesIn(out[k], |r|) && Expand(out[k], r) == ExplodeSpec(s)[k]
    {
      TrimTokExpand(ps[k], r);
    }
  }

  /**
   * The first loop of `__exploder`: while the pattern matches, give every
   * match the next number and replace all its occurrences by its placeholder.
   * On exit no group is left, and the tokens still stand for the input.
   */
  method Protect(input: string) returns (t: seq<Tok>, r: seq<seq<Tok>>)
    ensures AllGroups(r) && HolesIn(t, |r|) && NoGroup(t)
    ensures Expand(t, r) == input
  {
    t := Chars(input);
    r := [];
    CharsExpand(input);
    var matches := Groups(t, 0);
    while matches != []
      invariant AllGroups(r) && HolesIn(t, |r|) && Expand(t, r) == input
      invariant matches == Groups(t, 0)
      decreases CountOpen(t)
    {
      forall k | 0 <= k < |matches| ensures HolesIn(matches[k], |r|) {
        OccursHoles(matches[k], t, |r|);
      }
      t, r := ProtectAll(t, r, matches);
      matches := Groups(t, 0);
    }
  }

  /**
   * The `foreach` over the matches of one round: each match is appended to
   * the table and every occurrence of it replaced by its placeholder. The
   * first match occurs in the text, so the round removes at least one `(`.
   */
  method ProtectAll(t0: seq<Tok>, r0: seq<seq<Tok>>, matches: seq<seq<Tok>>) returns (t: seq<Tok>, r: seq<seq<Tok>>)
    requires AllGroups(r0) && HolesIn(t0, |r0|)
    requires forall k :: 0 <= k < |matches| ==> IsGroup(matches[k]) && HolesIn(matches[k], |r0|)
    requires matches != [] ==> Occurs(matches[0], t0)
    ensures AllGroups(r) && HolesIn(t, |r|) && Expand(t, r) == Expand(t0, r0)
    ensures |r| == |r0| + |matches|
    ensures CountOpen(t) <= CountOpen(t0) && (matches != [] ==> CountOpen(t) < CountOpen(t0))
  {
    ghost var text := Expand(t0, r0);
    t, r := t0, r0;
    var i := 0;
    while i < |matches|
      invariant i <= |matches| && |r| == |r0| + i
      invariant AllGroups(r) && HolesIn(t, |r|) && Expand(t, r) == text
      invariant i == 0 ==> t == t0
      invariant CountOpen(t) <= CountOpen(t0) && (i > 0 ==> CountOpen(t) < CountOpen(t0))
    {
      var m := matches[i];
      HolesInMono(m, |r0|, |r|);
      ProtectStep(t, r, m);
      var n := |r| + 1;
      r := r + [m];
      t := ReplaceAll(t, m, [Hole(n)]);
      i := i + 1;
    }
  }

  /** The inner loop of the restoring pass: put back the first placeholder left, everywhere it occurs, until none is left. */
  method Restore(u: seq<Tok>, r: seq<seq<Tok>>) returns (s: string)
    requires WellFormed(r) && HolesIn(u, |r|)
    ensures s == Expand(u, r)
  {
    var a := u;
    while HasHole(a)
      invariant HolesIn(a, |r|) && Expand(a, r) == Expand(u, r)
      decreases Weight(a, r)
    {
      var h := FirstHole(a);
      RestoreStep(a, r, h);
      a := ReplaceAll(a, [a[h]], r[a[h].n - 1]);
    }
    PlainExpand(a, r);
    s := Plain(a);
  }

  /** The restoring pass: `foreach ($output as &$a)` restores every piece. */
  method RestoreAll(output: seq<seq<Tok>>, r: seq<seq<Tok>>) returns (pieces: seq<string>)
    requires WellFormed(r) && forall k :: 0 <= k < |output| ==> HolesIn(output[k], |r|)
    ensures pieces == ExpandAll(output, r)
  {
    pieces := [];
    var j := 0;
    while j < |output|
      invariant j <= |output| && |pieces| == j
      invariant forall k :: 0 <= k < j ==> pieces[k] == Expand(output[k], r)
    {
      var a := Restore(output[j], r);
      pieces := pieces + [a];
      j := j + 1;
    }
  }

  /**
   * `__exploder($input)` with the default delimiter `,` and tags `(`, `)`:
   * hide the innermost groups until none is left, split on the commas,
   * trim every piece and put the groups back.
   */
  method Explode(input: string) returns (pieces: seq<string>)
    ensures pieces == ExplodeSpec(input)
  {
    var t, r := Protect(input);
    var output := TrimmedPieces(t);
    ProtectedSplit(t, r);
    pieces := RestoreAll(output, r);
  }
}
