/**
 * What the argument splitter promises about its pieces (jessc.php:176-203),
 * stated on the reference splitter that `Exploding.Explode` is proved equal to.
 */
module ExplodeFacts {
  import opened Text
  import opened Exploding

  /** The number of top-level commas at or after `lo`. */
  ghost function CountTop(s: string, lo: nat): nat
    requires lo <= |s|
    decreases |s| - lo
  {
    if lo == |s| then 0 else (if TopComma(s, lo) then 1 else 0) + CountTop(s, lo + 1)
  }

  lemma {:induction false} CountTopSkip(s: string, lo: nat, hi: nat)
    requires lo <= hi <= |s| && forall p :: lo <= p < hi ==> !TopComma(s, p)
    ensures CountTop(s, lo) == CountTop(s, hi)
    decreases hi - lo
  {
    if lo < hi {
      CountTopSkip(s, lo + 1, hi);
    }
  }

  lemma SplitFromUnfolds(s: string, lo: nat)
    requires lo <= |s|
    ensures NextTop(s, lo) == |s| ==> SplitFrom(s, lo) == [s[lo..]]
    ensures NextTop(s, lo) < |s| ==>
      SplitFrom(s, lo) == [s[lo..NextTop(s, lo)]] + SplitFrom(s, NextTop(s, lo) + 1)
  {
  }

  /** From `lo` on there is one piece more than there are top-level commas. */
  lemma {:induction false} SplitFromCount(s: string, lo: nat)
    requires lo <= |s|
    ensures |SplitFrom(s, lo)| == 1 + CountTop(s, lo)
    decreases |s| - lo
  {
    var p := NextTop(s, lo);
    CountTopSkip(s, lo, p);
    SplitFromUnfolds(s, lo);
    if p < |s| {
      SplitFromCount(s, p + 1);
    }
  }

  /** `__exploder` returns one piece more than the input has commas outside parentheses. */
  lemma ExplodeCount(s: string)
    ensures |ExplodeSpec(s)| == 1 + CountTop(s, 0)
  {
    SplitFromCount(s, 0);
  }

  /** The empty argument text gives exactly one empty piece. */
  lemma ExplodeEmpty()
    ensures ExplodeSpec("") == [""]
  {
    assert NextTop("", 0) == 0;
    assert TopLevelSplit("") == [""];
  }

  /** Every piece `__exploder` returns is trimmed. */
  lemma ExplodeTrimmed(s: string)
    ensures forall i :: 0 <= i < |ExplodeSpec(s)| ==> IsTrimmed(ExplodeSpec(s)[i])
  {
    var pieces := TopLevelSplit(s);
    forall i | 0 <= i < |pieces| ensures IsTrimmed(ExplodeSpec(s)[i]) {
      TrimFacts(pieces[i]);
    }
  }

  /** Gluing the pieces back together with commas gives the text from `lo` on. */
  lemma {:induction false} SplitFromJoin(s: string, lo: nat)
    requires lo <= |s|
    ensures |SplitFrom(s, lo)| >= 1
    ensures Join(SplitFrom(s, lo), ",") == s[lo..]
    decreases |s| - lo
  {
    var p := NextTop(s, lo);
    SplitFromUnfolds(s, lo);
    if p < |s| {
      SplitFromJoin(s, p + 1);
      JoinCons(s[lo..p], SplitFrom(s, p + 1), ",");
      assert s[lo..] == s[lo..p] + [s[p]] + s[p + 1..];
    }
  }

  /** No strippable character at either end of the text or next to any comma. */
  ghost predicate SpaceFreeCommas(s: string)
  {
    && (|s| > 0 ==> !IsTrimSpace(s[0]) && !IsTrimSpace(s[|s| - 1]))
    && forall p :: 0 <= p < |s| && s[p] == ',' ==>
         (p > 0 ==> !IsTrimSpace(s[p - 1])) && (p + 1 < |s| ==> !IsTrimSpace(s[p + 1]))
  }

  /** Without whitespace around the commas or at the ends, every top-level piece is already trimmed. */
  lemma {:induction false} SplitFromTrimmed(s: string, lo: nat)
    requires lo <= |s| && SpaceFreeCommas(s) && (lo == 0 || s[lo - 1] == ',')
    ensures forall i :: 0 <= i < |SplitFrom(s, lo)| ==> IsTrimmed(SplitFrom(s, lo)[i])
    decreases |s| - lo
  {
    var p := NextTop(s, lo);
    SplitFromUnfolds(s, lo);
    var x := s[lo..p];
    if x != [] {
      assert x[0] == s[lo] && x[|x| - 1] == s[p - 1];
    }
    if p < |s| {
      SplitFromTrimmed(s, p + 1);
    }
  }

  /**
   * When no whitespace sits at either end or next to a comma, joining the
   * pieces of `__exploder` with `,` gives the input back.
   */
  lemma ExplodeJoin(s: string)
    requires SpaceFreeCommas(s)
    ensures Join(ExplodeSpec(s), ",") == s
  {
    var pieces := TopLevelSplit(s);
    SplitFromTrimmed(s, 0);
    forall i | 0 <= i < |pieces| ensures ExplodeSpec(s)[i] == pieces[i] {
      TrimFacts(pieces[i]);
    }
    assert ExplodeSpec(s) == pieces;
    SplitFromJoin(s, 0);
  }

  /**
   * The splitter never cuts inside a group: every comma left in a piece is
   * enclosed by a matched pair of parentheses lying within that piece.
   */
  lemma PieceCommaEnclosed(s: string, lo: nat, i: nat)
    requires lo <= |s| && (lo == 0 || TopComma(s, lo - 1))
    requires i < NextTop(s, lo) - lo && s[lo + i] == ','
    ensures Enclosed(s[lo..NextTop(s, lo)], i)
  {
    var p := NextTop(s, lo);
    assert !TopComma(s, lo + i);
    var j, k :| PairAt(s, j, k) && j < lo + i < k;
    if lo > 0 {
      PairEncloses(s, j, k, lo - 1);
    }
    assert lo <= j;
    if p < |s| {
      PairEncloses(s, j, k, p);
    }
    assert k < p;
    PairInSlice(s, lo, p, j, k);
  }

  /** A matched pair lying within `s[lo..hi]` is a matched pair of that slice. */
  lemma PairInSlice(s: string, lo: nat, hi: nat, j: int, k: int)
    requires lo <= j && k < hi <= |s| && PairAt(s, j, k)
    ensures PairAt(s[lo..hi], j - lo, k - lo)
  {
    var x := s[lo..hi];
    var y := x[j - lo + 1..k - lo];
    forall m | 0 <= m < |y| ensures y[m] == s[j + 1..k][m] {
      assert y[m] == x[j - lo + 1 + m];
    }
    assert y == s[j + 1..k];
    assert x[j - lo] == s[j] && x[k - lo] == s[k];
  }

  lemma PairEncloses(s: string, j: int, k: int, m: int)
    requires PairAt(s, j, k)
    ensures j < m < k ==> Enclosed(s, m)
  {
  }

  /** Every comma of `x` sits inside a matched pair of parentheses of `x`. */
  ghost predicate CommasEnclosed(x: string)
  {
    forall i :: 0 <= i < |x| && x[i] == ',' ==> Enclosed(x, i)
  }

  lemma {:induction false} SplitFromCommas(s: string, lo: nat)
    requires lo <= |s| && (lo == 0 || TopComma(s, lo - 1))
    ensures forall n :: 0 <= n < |SplitFrom(s, lo)| ==> CommasEnclosed(SplitFrom(s, lo)[n])
    decreases |s| - lo
  {
    var p := NextTop(s, lo);
    var ps := SplitFrom(s, lo);
    SplitFromUnfolds(s, lo);
    forall i | 0 <= i < p - lo && s[lo..p][i] == ',' ensures Enclosed(s[lo..p], i) {
      PieceCommaEnclosed(s, lo, i);
    }
    assert CommasEnclosed(s[lo..p]);
    if p < |s| {
      SplitFromCommas(s, p + 1);
      ConsAll(s[lo..p], SplitFrom(s, p + 1));
    } else {
      assert s[lo..p] == s[lo..];
      assert ps == [s[lo..p]];
    }
  }

  lemma ConsAll(x: string, rest: seq<string>)
    requires CommasEnclosed(x) && forall n :: 0 <= n < |rest| ==> CommasEnclosed(rest[n])
    ensures forall n :: 0 <= n < |[x] + rest| ==> CommasEnclosed(([x] + rest)[n])
  {
    forall n | 0 <= n < |[x] + rest| ensures CommasEnclosed(([x] + rest)[n]) {
      if n > 0 {
        assert ([x] + rest)[n] == rest[n - 1];
      }
    }
  }

  /** `__exploder` does not split inside parentheses: a comma in a raw piece always sits inside a group of that piece. */
  lemma TopLevelPiecesEnclosed(s: string)
    ensures forall n :: 0 <= n < |TopLevelSplit(s)| ==> CommasEnclosed(TopLevelSplit(s)[n])
  {
    SplitFromCommas(s, 0);
  }
}
