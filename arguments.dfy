/**
 * The argument classifier of the compiler (jessc.php:212-266): the raw
 * pieces of `__exploder` become typed arguments. A piece quoted with `'` or
 * `"` at both ends is a string, a piece in braces is an object, and every
 * other piece, the empty one included, is dropped.
 */
module Arguments {
  import opened Wrappers
  import opened Text
  import opened Exploding

  /**
   * One parsed argument: `['type' => 'string', 'value' => ...]` or
   * `['type' => 'object', 'value' => json_decode(...)]`. The decoded object
   * is kept as its raw text.
   */
  datatype Arg = StringArg(value: string) | ObjectArg(raw: string)

  predicate IsQuote(c: char)
  {
    c == '\'' || c == '"'
  }

  /** `__isString`: the first and the last character are both `'` or both `"`. */
  predicate IsString(v: string)
  {
    |v| > 0 && ((v[0] == '\'' && v[|v| - 1] == '\'') || (v[0] == '"' && v[|v| - 1] == '"'))
  }

  /** `__isObject`: the text starts with `{` and ends with `}`. */
  predicate IsObject(v: string)
  {
    |v| > 0 && v[0] == '{' && v[|v| - 1] == '}'
  }

  /**
   * A string is a text between two equal quote characters (a lone quote
   * counts), an object a text of at least two characters between braces,
   * and no text is both.
   */
  lemma StringOrObject(v: string)
    ensures IsString(v) <==> |v| > 0 && IsQuote(v[0]) && v[|v| - 1] == v[0]
    ensures IsObject(v) ==> |v| >= 2 && !IsString(v)
  {
  }

  /**
   * `__parseString`: `substr($value, 1, strlen($value) - 2)`, the text
   * between the quotes. A lone quote character has nothing between its
   * quotes and gives the empty string.
   */
  function ParseString(v: string): (r: string)
    ensures |v| >= 2 ==> v == v[..1] + r + v[|v| - 1..]
    ensures |v| < 2 ==> r == []
  {
    if |v| < 2 then [] else v[1..|v| - 1]
  }

  /** The `switch (true)` of `__parseFunctionArguments` for one piece: string first, then object, else nothing. */
  function Classify(piece: string): (a: Option<Arg>)
    ensures piece == [] ==> a == None
    ensures a == None <==> !IsString(piece) && !IsObject(piece)
    ensures a.Some? && a.value.StringArg? ==>
      IsQuote(piece[0]) && piece[|piece| - 1] == piece[0] &&
      (|piece| >= 2 ==> piece == [piece[0]] + a.value.value + [piece[0]]) &&
      (|piece| < 2 ==> a.value.value == [])
    ensures a.Some? && a.value.ObjectArg? ==> a.value.raw == piece && IsObject(piece) && !IsString(piece)
  {
    if IsString(piece) then
      var v := ParseString(piece);
      assert |piece| >= 2 ==> piece[..1] == [piece[0]] && piece[|piece| - 1..] == [piece[0]];
      Some(StringArg(v))
    else if IsObject(piece) then Some(ObjectArg(piece))
    else None
  }

  /** A text between two equal quote characters is classified as that very string. */
  lemma QuotedRoundTrip(q: char, v: string)
    requires IsQuote(q)
    ensures Classify([q] + v + [q]) == Some(StringArg(v))
  {
    var p := [q] + v + [q];
    assert p[1..|p| - 1] == v;
  }

  /** The arguments the classifier keeps, in order, from a list of raw pieces. */
  function ParseSpec(pieces: seq<string>): (args: seq<Arg>)
    ensures |args| <= |pieces|
    ensures pieces != [] && Classify(pieces[0]).Some? ==> args != [] && args[0] == Classify(pieces[0]).value
  {
    if pieces == [] then []
    else
      var rest := ParseSpec(pieces[1..]);
      match Classify(pieces[0])
      case Some(a) => [a] + rest
      case None => rest
  }

  /** Classifying a concatenation classifies each part. */
  lemma {:induction false} ParseAppend(xs: seq<string>, ys: seq<string>)
    ensures ParseSpec(xs + ys) == ParseSpec(xs) + ParseSpec(ys)
    decreases |xs|
  {
    if xs != [] {
      assert (xs + ys)[1..] == xs[1..] + ys;
      ParseAppend(xs[1..], ys);
    } else {
      assert xs + ys == ys;
    }
  }

  /** No piece is lost exactly when every piece is a string or an object. */
  lemma {:induction false} ParseKeepsAll(pieces: seq<string>)
    ensures |ParseSpec(pieces)| == |pieces| <==> forall i :: 0 <= i < |pieces| ==> Classify(pieces[i]).Some?
    decreases |pieces|
  {
    if pieces != [] {
      ParseKeepsAll(pieces[1..]);
      assert forall i :: 1 <= i < |pieces| ==> pieces[i] == pieces[1..][i - 1];
    }
  }

  lemma ParseOne(piece: string)
    ensures ParseSpec([piece]) == if Classify(piece).Some? then [Classify(piece).value] else []
  {
    assert [piece][1..] == [];
  }

  /** Every kept argument is the classification of some piece. */
  lemma {:induction false} ParseFromPieces(pieces: seq<string>, k: nat)
    requires k < |ParseSpec(pieces)|
    ensures exists i :: 0 <= i < |pieces| && Classify(pieces[i]) == Some(ParseSpec(pieces)[k])
    decreases |pieces|
  {
    var rest := ParseSpec(pieces[1..]);
    match Classify(pieces[0])
    case Some(a) =>
      if k > 0 {
        ParseFromPieces(pieces[1..], k - 1);
        var i :| 0 <= i < |pieces[1..]| && Classify(pieces[1..][i]) == Some(rest[k - 1]);
        assert pieces[i + 1] == pieces[1..][i];
      }
    case None =>
      ParseFromPieces(pieces[1..], k);
      var i :| 0 <= i < |pieces[1..]| && Classify(pieces[1..][i]) == Some(rest[k]);
      assert pieces[i + 1] == pieces[1..][i];
  }

  /** Argument text with no comma is one piece: the text trimmed. */
  lemma NoCommaOnePiece(s: string)
    requires forall i :: 0 <= i < |s| ==> s[i] != ','
    ensures ExplodeSpec(s) == [Trim(s)]
  {
    assert NextTop(s, 0) == |s|;
    assert s[0..] == s;
    assert TopLevelSplit(s) == [s];
  }

  /** An empty argument list, `jess.f()`, parses to no argument at all. */
  lemma ParseNoArguments()
    ensures ParseSpec(ExplodeSpec("")) == []
  {
    NoCommaOnePiece("");
    assert Trim("") == "";
  }

  /** `jess.f('name')` with a comma-free name parses to the one string argument `name`. */
  lemma ParseQuotedName(q: char, name: string)
    requires IsQuote(q) && forall i :: 0 <= i < |name| ==> name[i] != ','
    ensures ParseSpec(ExplodeSpec([q] + name + [q])) == [StringArg(name)]
  {
    var s := [q] + name + [q];
    assert forall i :: 0 <= i < |s| ==> s[i] != ',' by {
      forall i | 0 <= i < |s| ensures s[i] != ',' {
        if 0 < i < |s| - 1 {
          assert s[i] == name[i - 1];
        }
      }
    }
    NoCommaOnePiece(s);
    TrimFacts(s);
    QuotedRoundTrip(q, name);
    assert [s][1..] == [];
  }

  /**
   * `__parseFunctionArguments`: split the argument text with `__exploder`
   * and keep the classification of every piece, in order.
   */
  method ParseFunctionArguments(argumentsString: string) returns (args: seq<Arg>)
    ensures args == ParseSpec(ExplodeSpec(argumentsString))
    ensures |args| <= |ExplodeSpec(argumentsString)|
  {
    var rawArgs := Explode(argumentsString);
    args := ClassifyAll(rawArgs);
  }

  /** The `foreach` of `__parseFunctionArguments`: append each string or object piece to `$args`. */
  method ClassifyAll(rawArgs: seq<string>) returns (args: seq<Arg>)
    ensures args == ParseSpec(rawArgs)
  {
    args := [];
    var i := 0;
    while i < |rawArgs|
      invariant i <= |rawArgs|
      invariant args == ParseSpec(rawArgs[..i])
    {
      var arg := rawArgs[i];
      ParseAppend(rawArgs[..i], [arg]);
      ParseOne(arg);
      assert rawArgs[..i + 1] == rawArgs[..i] + [arg];
      if IsString(arg) {
        args := args + [StringArg(ParseString(arg))];
      } else if IsObject(arg) {
        args := args + [ObjectArg(arg)];
      }
      i := i + 1;
    }
    assert rawArgs[..i] == rawArgs;
  }
}
