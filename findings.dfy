/**
 * `__exploder` as written (jessc.php:176-203), on plain text: the hidden
 * groups become the text `{{n}}`, and the restoring loop looks for that
 * text. Text that already holds a placeholder of its own is therefore
 * mistaken for a hidden group: the argument `({{1}})` is hidden as `{{1}}`,
 * and putting it back yields `({{1}})` again, which still holds `{{1}}`, so
 * the restoring loop never ends. A placeholder with no hidden group behind
 * it is put back as nothing: `'{{1}}'` comes back as `''`. `Exploding` keeps
 * the placeholders apart from the text, and its splitter returns both
 * arguments unchanged.
 *
 * Every loop here carries `fuel`; `None` means the fuel ran out.
 */
module AsWritten {
  import opened Wrappers
  import opened Text
  import Exploding
  import Arguments

  // ---------------------------------------------------------------------
  // Hiding the groups
  // ---------------------------------------------------------------------

  predicate IsParen(c: char)
  {
    c == '(' || c == ')'
  }

  /** The first parenthesis at or after `j`, or `|s|`. */
  function NextParen(s: string, j: nat): (k: nat)
    requires j <= |s|
    ensures j <= k <= |s| && (k < |s| ==> IsParen(s[k]))
    ensures forall p :: j <= p < k ==> !IsParen(s[p])
    decreases |s| - j
  {
    if j == |s| || IsParen(s[j]) then j else NextParen(s, j + 1)
  }

  /** `preg_match_all('/\([^()]*\)/', ...)` from `i` on: the innermost groups, left to right. */
  function GroupsFrom(s: string, i: nat): (ms: seq<string>)
    requires i <= |s|
    ensures forall n :: 0 <= n < |ms| ==> |ms[n]| >= 2
    decreases |s| - i
  {
    if i == |s| then []
    else if s[i] == '(' then
      var k := NextParen(s, i + 1);
      if k < |s| && s[k] == ')' then [s[i..k + 1]] + GroupsFrom(s, k + 1)
      else GroupsFrom(s, i + 1)
    else GroupsFrom(s, i + 1)
  }

  /** The decimal digits of `n`, as PHP writes `count($r)` into the placeholder. */
  function Decimal(n: nat): (d: string)
    ensures |d| >= 1
    decreases n
  {
    var digit := ['0' + (n % 10) as char];
    if n < 10 then digit else Decimal(n / 10) + digit
  }

  /** One round of the `foreach`: each match gets the next number, and all its occurrences that placeholder. */
  function Round(s: string, r: seq<string>, ms: seq<string>): (out: (string, seq<string>))
    requires forall n :: 0 <= n < |ms| ==> |ms[n]| > 0
    ensures out.1 == r + ms
    decreases |ms|
  {
    if ms == [] then (s, r)
    else
      var r' := r + [ms[0]];
      Round(ReplaceAll(s, ms[0], "{{" + Decimal(|r'|) + "}}"), r', ms[1..])
  }

  /** The first `while` loop: rounds until no group is left. */
  function Protect(s: string, r: seq<string>, fuel: nat): (o: Option<(string, seq<string>)>)
    ensures o.Some? ==> GroupsFrom(o.value.0, 0) == [] && |r| <= |o.value.1| && o.value.1[..|r|] == r
    decreases fuel
  {
    var ms := GroupsFrom(s, 0);
    if ms == [] then Some((s, r))
    else if fuel == 0 then None
    else
      var next := Round(s, r, ms);
      Protect(next.0, next.1, fuel - 1)
  }

  // ---------------------------------------------------------------------
  // Splitting and putting back
  // ---------------------------------------------------------------------

  /** `explode(',', $s)`. */
  function SplitCommas(s: string): (pieces: seq<string>)
    ensures |pieces| >= 1
    decreases |s|
  {
    if s == [] then [""]
    else
      var rest := SplitCommas(s[1..]);
      if s[0] == ',' then [""] + rest else [[s[0]] + rest[0]] + rest[1..]
  }

  predicate IsDigit(c: char)
  {
    '0' <= c <= '9'
  }

  /** The end of the run of digits starting at `j`. */
  function SkipDigits(s: string, j: nat): (k: nat)
    requires j <= |s|
    ensures j <= k <= |s| && (k < |s| ==> !IsDigit(s[k]))
    ensures forall p :: j <= p < k ==> IsDigit(s[p])
    decreases |s| - j
  {
    if j < |s| && IsDigit(s[j]) then SkipDigits(s, j + 1) else j
  }

  /** The value of a run of decimal digits. */
  function Value(digits: string): nat
  {
    if digits == [] then 0
    else 10 * Value(digits[..|digits| - 1]) + (if IsDigit(digits[|digits| - 1]) then (digits[|digits| - 1] - '0') as nat else 0)
  }

  predicate Digits(s: string)
  {
    forall i :: 0 <= i < |s| ==> IsDigit(s[i])
  }

  /** `a[j..q + 2]` is a placeholder: two braces, at least one digit, two braces. */
  predicate SpanAt(a: string, j: nat, q: nat)
  {
    j + 2 < q && q + 2 <= |a| && a[j] == '{' && a[j + 1] == '{' &&
    Digits(a[j + 2..q]) && a[q] == '}' && a[q + 1] == '}'
  }

  /** No placeholder starts in `[lo, hi)`. */
  ghost predicate NoSpan(a: string, lo: nat, hi: nat)
  {
    forall j, q :: lo <= j < hi ==> !SpanAt(a, j, q)
  }

  /** A placeholder at `j` ends where the run of digits after its braces ends. */
  lemma SpanEndsAtDigits(a: string, j: nat, q: nat)
    requires j + 2 <= |a| && SpanAt(a, j, q)
    ensures SkipDigits(a, j + 2) == q
  {
    forall i | j + 2 <= i < q
      ensures IsDigit(a[i])
    {
      assert a[j + 2..q][i - j - 2] == a[i];
    }
  }

  /**
   * `preg_match('/{{(\d+)}}/', $a)` from `p` on: the first placeholder,
   * as its whole text and its number.
   */
  function Placeholder(a: string, p: nat): (m: Option<(string, nat)>)
    requires p <= |a|
    ensures m.Some? ==> |m.value.0| >= 5
    decreases |a| - p
  {
    if p + 2 > |a| then None
    else
      var q := SkipDigits(a, p + 2);
      if a[p] == '{' && a[p + 1] == '{' && q > p + 2 && q + 2 <= |a| && a[q] == '}' && a[q + 1] == '}' then
        Some((a[p..q + 2], Value(a[p + 2..q])))
      else Placeholder(a, p + 1)
  }

  /**
   * `Placeholder` finds the leftmost placeholder at or after `p`, with its text and
   * the value of its digits, and finds none exactly when no position holds one.
   */
  lemma {:induction false} PlaceholderLeftmost(a: string, p: nat)
    requires p <= |a|
    ensures Placeholder(a, p).Some? ==>
      exists j: nat, q: nat :: p <= j && SpanAt(a, j, q) && NoSpan(a, p, j) &&
        Placeholder(a, p).value == (a[j..q + 2], Value(a[j + 2..q]))
    ensures Placeholder(a, p).None? <==> NoSpan(a, p, |a|)
    decreases |a| - p
  {
    if p + 2 <= |a| {
      var q := SkipDigits(a, p + 2);
      if a[p] == '{' && a[p + 1] == '{' && q > p + 2 && q + 2 <= |a| && a[q] == '}' && a[q + 1] == '}' {
        assert SpanAt(a, p, q);
      } else {
        forall q' | SpanAt(a, p, q')
          ensures false
        {
          SpanEndsAtDigits(a, p, q');
        }
        PlaceholderLeftmost(a, p + 1);
      }
    }
  }

  /** `$r[$n - 1]`: a number past the table reads as null, which `str_replace` writes as nothing. */
  function Entry(r: seq<string>, n: nat): string
  {
    if 1 <= n <= |r| then r[n - 1] else ""
  }

  /** The inner `while`: replace the first placeholder left, everywhere, until none is left. */
  function Restore(a: string, r: seq<string>, fuel: nat): (o: Option<string>)
    ensures o.Some? ==> Placeholder(o.value, 0).None?
    ensures Placeholder(a, 0).None? ==> o == Some(a)
    decreases fuel
  {
    match Placeholder(a, 0)
    case None => Some(a)
    case Some((m, n)) =>
      if fuel == 0 then None
      else
        Restore(ReplaceAll(a, m, Entry(r, n)), r, fuel - 1)
  }

  function RestoreAll(pieces: seq<string>, r: seq<string>, fuel: nat): (o: Option<seq<string>>)
    ensures o.Some? ==> |o.value| == |pieces|
    ensures o.Some? ==> forall i :: 0 <= i < |pieces| ==> Restore(pieces[i], r, fuel) == Some(o.value[i])
    decreases |pieces|
  {
    if pieces == [] then Some([])
    else
      match (Restore(pieces[0], r, fuel), RestoreAll(pieces[1..], r, fuel))
      case (Some(a), Some(rest)) => Some([a] + rest)
      case _ => None
  }

  /** `__exploder($input)` as written, with `fuel` bounding every loop. */
  function Explode(input: string, fuel: nat): (o: Option<seq<string>>)
    ensures o.Some? ==> |o.value| >= 1 && forall i :: 0 <= i < |o.value| ==> Placeholder(o.value[i], 0).None?
  {
    match Protect(input, [], fuel)
    case None => None
    case Some((t, r)) => RestoreAll(Exploding.TrimAll(SplitCommas(t)), r, fuel)
  }

  // ---------------------------------------------------------------------
  // The discrepancy
  // ---------------------------------------------------------------------

  function Repeat(c: char, k: nat): (s: string)
    ensures |s| == k && forall p :: 0 <= p < k ==> s[p] == c
  {
    if k == 0 then [] else [c] + Repeat(c, k - 1)
  }

  /** The text after `k` steps of the restoring loop on `{{1}}`: the group wrapped `k` times. */
  function Wrapped(k: nat): string
  {
    Repeat('(', k) + "{{1}}" + Repeat(')', k)
  }

  /** Nothing before position `k` of `Wrapped(k)` starts a placeholder; at `k` stands `{{1}}`. */
  lemma {:induction false} PlaceholderWrapped(k: nat, p: nat)
    requires p <= k
    ensures Placeholder(Wrapped(k), p) == Some(("{{1}}", 1))
    decreases k - p
  {
    var a := Wrapped(k);
    assert a[k..k + 5] == "{{1}}";
    if p < k {
      assert a[p] == '(';
      PlaceholderWrapped(k, p + 1);
    } else {
      var q := SkipDigits(a, k + 2);
      assert a[k + 2] == '1' && a[k + 3] == '}';
      assert q == k + 3;
      assert a[k + 2..q] == "1";
      assert Value("1") == 1 by {
        assert "1"[..0] == [];
      }
    }
  }

  /** `str_replace` passes over a first character that cannot start the pattern. */
  lemma ReplaceSkipsFirst(c: char, t: string, pat: string, rep: string)
    requires |pat| > 0 && pat[0] != c
    ensures ReplaceAll([c] + t, pat, rep) == [c] + ReplaceAll(t, pat, rep)
  {
    var s := [c] + t;
    assert s[1..] == t;
    if |s| >= |pat| {
      assert s[..|pat|][0] == c;
    }
  }

  /** `str_replace` passes over leading `(` when the pattern does not start with one. */
  lemma {:induction false} ReplaceAfterOpen(k: nat, t: string, pat: string, rep: string)
    requires |pat| > 0 && pat[0] != '('
    ensures ReplaceAll(Repeat('(', k) + t, pat, rep) == Repeat('(', k) + ReplaceAll(t, pat, rep)
    decreases k
  {
    if k > 0 {
      assert Repeat('(', k) + t == ['('] + (Repeat('(', k - 1) + t);
      ReplaceSkipsFirst('(', Repeat('(', k - 1) + t, pat, rep);
      ReplaceAfterOpen(k - 1, t, pat, rep);
    } else {
      assert Repeat('(', k) + t == t;
    }
  }

  lemma ClosersHaveNoPlaceholder(k: nat)
    ensures !Occurs("{{1}}", Repeat(')', k))
  {
    var c := Repeat(')', k);
    forall i ensures !OccursAt("{{1}}", c, i) {
      if 0 <= i && i + 5 <= |c| {
        assert c[i..i + 5][0] == ')';
      }
    }
  }

  lemma RepeatSnoc(c: char, k: nat)
    ensures Repeat(c, k + 1) == Repeat(c, k) + [c]
  {
    if k > 0 {
      RepeatSnoc(c, k - 1);
    }
  }

  /** `Wrapped(k + 1)` is `Wrapped(k)` with `{{1}}` replaced by `({{1}})`. */
  lemma WrappedNext(k: nat)
    ensures Wrapped(k + 1) == Repeat('(', k) + ("({{1}})" + Repeat(')', k))
  {
    RepeatSnoc('(', k);
    assert Repeat(')', k + 1) == [')'] + Repeat(')', k);
  }

  /** One step of the restoring loop wraps the text once more. */
  lemma ReplaceWrapped(k: nat)
    ensures ReplaceAll(Wrapped(k), "{{1}}", "({{1}})") == Wrapped(k + 1)
  {
    var tail := "{{1}}" + Repeat(')', k);
    assert Wrapped(k) == Repeat('(', k) + tail;
    ReplaceAfterOpen(k, tail, "{{1}}", "({{1}})");
    ClosersHaveNoPlaceholder(k);
    ReplaceAllOnce("{{1}}", Repeat(')', k), "({{1}})");
    WrappedNext(k);
  }

  /** On `Wrapped(k)`, with `({{1}})` as the first hidden group, the restoring loop uses up any fuel. */
  lemma {:induction false} RestoreWrappedDiverges(k: nat, fuel: nat)
    ensures Restore(Wrapped(k), ["({{1}})"], fuel) == None
    decreases fuel
  {
    PlaceholderWrapped(k, 0);
    if fuel > 0 {
      assert Entry(["({{1}})"], 1) == "({{1}})";
      ReplaceWrapped(k);
      RestoreWrappedDiverges(k + 1, fuel - 1);
    }
  }

  /** Text without a comma is one piece. */
  lemma {:induction false} NoCommaSplit(s: string)
    requires forall p :: 0 <= p < |s| ==> s[p] != ','
    ensures SplitCommas(s) == [s]
    decreases |s|
  {
    if s != [] {
      NoCommaSplit(s[1..]);
      assert [s[0]] + s[1..] == s;
    }
  }

  lemma NoParens(s: string, i: nat)
    requires i <= |s| && forall p :: 0 <= p < |s| ==> !IsParen(s[p])
    ensures GroupsFrom(s, i) == []
    decreases |s| - i
  {
    if i < |s| {
      NoParens(s, i + 1);
    }
  }

  /** The only innermost group of `({{1}})` is the whole text. */
  lemma GroupsLiteral()
    ensures GroupsFrom("({{1}})", 0) == ["({{1}})"]
  {
    var s := "({{1}})";
    assert NextParen(s, 1) == 6 by {
      assert !IsParen(s[1]) && !IsParen(s[2]) && !IsParen(s[3]) && !IsParen(s[4]) && !IsParen(s[5]);
      assert IsParen(s[6]);
    }
    assert s[0..7] == s;
    assert GroupsFrom(s, 7) == [];
  }

  /** The first loop hides the argument `({{1}})` whole, as `{{1}}`. */
  lemma ProtectLiteral(fuel: nat)
    requires fuel >= 1
    ensures Protect("({{1}})", [], fuel) == Some(("{{1}}", ["({{1}})"]))
  {
    var s := "({{1}})";
    GroupsLiteral();
    RoundLiteral(s);
    NoParens("{{1}}", 0);
    assert Protect(s, [], fuel) == Protect("{{1}}", [s], fuel - 1);
  }

  /** One round over `({{1}})` replaces the whole text by `{{1}}` and records it as entry 1. */
  lemma RoundLiteral(s: string)
    requires s == "({{1}})"
    ensures Round(s, [], [s]) == ("{{1}}", [s])
  {
    assert Decimal(1) == "1";
    assert "{{" + Decimal(|[s]|) + "}}" == "{{1}}";
    assert ReplaceAll(s, s, "{{1}}") == "{{1}}" by {
      assert s[..|s|] == s && s[|s|..] == [];
    }
    var none: seq<string> := [];
    assert [] + [s] == [s];
    assert [s][1..] == none;
    assert Round(s, [], [s]) == Round("{{1}}", [s], none);
  }

  /** The pieces of the hidden text `{{1}}`: the one piece `{{1}}`. */
  lemma PiecesLiteral()
    ensures Exploding.TrimAll(SplitCommas("{{1}}")) == ["{{1}}"]
  {
    var t := "{{1}}";
    assert t[0] == '{' && t[1] == '{' && t[2] == '1' && t[3] == '}' && t[4] == '}';
    NoCommaSplit(t);
    assert IsTrimmed(t);
    TrimFacts(t);
    assert Exploding.TrimAll([t])[0] == Trim(t);
  }

  /** A list whose first piece cannot be restored cannot be restored. */
  lemma RestoreAllFirst(pieces: seq<string>, r: seq<string>, fuel: nat)
    requires pieces != [] && Restore(pieces[0], r, fuel) == None
    ensures RestoreAll(pieces, r, fuel) == None
  {
  }

  /**
   * `__exploder('({{1}})')` as written never returns: whatever fuel it is
   * given, the restoring loop runs out of it.
   */
  lemma LiteralPlaceholderDiverges(fuel: nat)
    ensures Explode("({{1}})", fuel) == None
  {
    if fuel >= 1 {
      ProtectLiteral(fuel);
      PiecesLiteral();
      assert Wrapped(0) == "{{1}}";
      RestoreWrappedDiverges(0, fuel);
      RestoreAllFirst(["{{1}}"], ["({{1}})"], fuel);
    } else {
      GroupsLiteral();
    }
  }

  /** Argument text without a comma and with nothing to trim is one piece, unchanged, for the model's splitter. */
  lemma KeptWhole(s: string)
    requires forall p :: 0 <= p < |s| ==> s[p] != ','
    requires IsTrimmed(s)
    ensures Exploding.ExplodeSpec(s) == [s]
  {
    Arguments.NoCommaOnePiece(s);
    TrimFacts(s);
  }

  /** The splitter of the model returns the same argument as one piece, unchanged. */
  lemma LiteralPlaceholderKept()
    ensures Exploding.ExplodeSpec("({{1}})") == ["({{1}})"]
  {
    var s := "({{1}})";
    assert s[0] == '(' && s[1] == '{' && s[2] == '{' && s[3] == '1' && s[4] == '}' && s[5] == '}' && s[6] == ')';
    KeptWhole(s);
  }

  // ---------------------------------------------------------------------
  // A placeholder in a quoted argument: `'{{1}}'`
  // ---------------------------------------------------------------------

  /** The characters of `'{{1}}'`. */
  predicate IsQuotedPlaceholder(s: string)
  {
    |s| == 7 && s[0] == '\'' && s[1] == '{' && s[2] == '{' && s[3] == '1' && s[4] == '}' && s[5] == '}' && s[6] == '\''
  }

  lemma QuotedPlaceholderChars(s: string)
    requires s == "'{{1}}'"
    ensures IsQuotedPlaceholder(s)
  {
  }

  /** `'{{1}}'` holds no parenthesis: nothing is hidden, and the table stays empty. */
  lemma ProtectQuoted(s: string, fuel: nat)
    requires IsQuotedPlaceholder(s)
    ensures Protect(s, [], fuel) == Some((s, []))
  {
    NoParens(s, 0);
  }

  /** `'{{1}}'` holds no comma and nothing to trim: it is the one piece. */
  lemma PiecesQuoted(s: string)
    requires IsQuotedPlaceholder(s)
    ensures Exploding.TrimAll(SplitCommas(s)) == [s]
  {
    assert forall p :: 0 <= p < |s| ==> s[p] != ',';
    NoCommaSplit(s);
    assert IsTrimmed(s);
    TrimFacts(s);
    var t := Exploding.TrimAll([s]);
    assert |t| == 1 && t[0] == s;
  }

  /** The first placeholder of `'{{1}}'` is `{{1}}`, at position 1. */
  lemma PlaceholderQuoted(s: string)
    requires IsQuotedPlaceholder(s)
    ensures Placeholder(s, 0) == Some(("{{1}}", 1))
  {
    assert SkipDigits(s, 3) == 4;
    assert s[1..6] == "{{1}}";
    assert s[3..4] == "1";
    assert Value("1") == 1 by {
      assert "1"[..0] == [];
    }
    assert Placeholder(s, 1) == Some(("{{1}}", 1));
  }

  /** With no group recorded, `{{1}}` is put back as nothing: `'{{1}}'` becomes `''`. */
  lemma ReplaceQuoted(s: string)
    requires IsQuotedPlaceholder(s)
    ensures ReplaceAll(s, "{{1}}", Entry([], 1)) == "''"
  {
    var pat := "{{1}}";
    assert Entry([], 1) == [];
    assert s == ['\''] + (pat + "'");
    ReplaceSkipsFirst('\'', pat + "'", pat, []);
    assert !Occurs(pat, "'") by {
      assert forall i :: !OccursAt(pat, "'", i);
    }
    ReplaceAllOnce(pat, "'", []);
  }

  /** The restoring loop turns `'{{1}}'` into `''` and stops there. */
  lemma RestoreQuoted(s: string, fuel: nat)
    requires IsQuotedPlaceholder(s) && fuel >= 1
    ensures Restore(s, [], fuel) == Some("''")
  {
    PlaceholderQuoted(s);
    ReplaceQuoted(s);
    var e := "''";
    assert Placeholder(e, 1) == None;
    assert Placeholder(e, 0) == None;
  }

  /**
   * `__exploder("'{{1}}'")` as written returns the one piece `''`: the
   * placeholder the argument holds of its own is taken for hidden group 1,
   * which does not exist, and is put back as nothing.
   */
  lemma QuotedPlaceholderDropped(fuel: nat)
    requires fuel >= 1
    ensures Explode("'{{1}}'", fuel) == Some(["''"])
  {
    var s := "'{{1}}'";
    QuotedPlaceholderChars(s);
    ProtectQuoted(s, fuel);
    PiecesQuoted(s);
    RestoreQuoted(s, fuel);
    ExplodeOnePiece(s, fuel, "''");
  }

  /** An input with nothing to hide that is one piece explodes to that piece restored. */
  lemma ExplodeOnePiece(s: string, fuel: nat, out: string)
    requires Protect(s, [], fuel) == Some((s, []))
    requires Exploding.TrimAll(SplitCommas(s)) == [s]
    requires Restore(s, [], fuel) == Some(out)
    ensures Explode(s, fuel) == Some([out])
  {
    var none: seq<string> := [];
    var ps := [s];
    assert ps[0] == s && ps[1..] == none;
    assert RestoreAll(none, [], fuel) == Some([]);
    assert RestoreAll(ps, [], fuel) == Some([out] + []);
    assert [out] + [] == [out];
  }

  /** The splitter of the model returns `'{{1}}'` unchanged. */
  lemma QuotedPlaceholderKept()
    ensures Exploding.ExplodeSpec("'{{1}}'") == ["'{{1}}'"]
  {
    var s := "'{{1}}'";
    QuotedPlaceholderChars(s);
    KeptWhole(s);
  }
}
