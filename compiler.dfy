/**
 * The compiler proper (jessc.php:14-342): the directive loop of
 * `__compileFunctions`, the `require` handler of `JessJsObject`, the search
 * path kept by `compileFile` and the staleness check of `cachedCompile`.
 *
 * The file system is a map from path to contents and modification time;
 * `realpath` is the identity on the paths of that map, and the clock is a
 * parameter. A require nested more deeply than `fuel` stops with
 * `NestingTooDeep`, where the source would recurse until PHP runs out of
 * stack (a file that requires itself never stops otherwise).
 */
module Compiler {
  import opened Wrappers
  import opened Text
  import opened Exploding
  import opened Arguments
  import opened Scanner

  // ---------------------------------------------------------------------
  // Errors, files and the search path
  // ---------------------------------------------------------------------

  /** The exceptions the compiler throws, and the bound the model adds. */
  datatype Error =
    | NoArguments
    | NotAString
    | TooManyArguments
    | CannotRequire(fileName: string)
    | FailedToFind(fname: string)
    | NestingTooDeep

  const Prefix: string := "JessCompiler Error: "

  /** The message of each exception, word for word. */
  function Message(e: Error): (m: string)
    ensures |Prefix| <= |m| && m[..|Prefix|] == Prefix
    ensures e.CannotRequire? ==> m == Prefix + "Cannot require \"" + e.fileName + "\""
    ensures e.FailedToFind? ==> m == Prefix + "failed to find " + e.fname
  {
    Prefix +
    match e
    case NoArguments => "Require cannot have 0 arguments"
    case NotAString => "Require only accepts a String argument"
    case TooManyArguments => "Require only accepts 1 argument"
    case CannotRequire(f) => "Cannot require \"" + f + "\""
    case FailedToFind(f) => "failed to find " + f
    case NestingTooDeep => "require nesting too deep"
  }

  /** A file on disk: what `file_get_contents` reads and what `filemtime` reports. */
  datatype File = File(contents: string, mtime: int)

  /** `file_exists`, `is_readable`, `file_get_contents` and `filemtime` all consult this map. */
  type FileSystem = map<string, File>

  /**
   * `$importDir`: the string `''` it starts as, or the array `compileFile`
   * makes of it.
   */
  datatype ImportDir = Single(path: string) | List(dirs: seq<string>)

  /** `(array)$importDir`: a string becomes a one-element array. */
  function Cast(d: ImportDir): (r: seq<string>)
    ensures d.List? ==> r == d.dirs
    ensures d.Single? ==> r == [d.path]
  {
    match d
    case Single(p) => [p]
    case List(ds) => ds
  }

  /** The directories `foreach` visits: none for a string, which PHP refuses to iterate. */
  function Dirs(d: ImportDir): (r: seq<string>)
    ensures d.Single? ==> r == []
    ensures d.List? ==> r == d.dirs
  {
    match d
    case Single(_) => []
    case List(ds) => ds
  }

  /** The position of the last `/` in `path`, or -1. */
  function LastSlash(path: string): (p: int)
    ensures -1 <= p < |path|
    ensures p >= 0 ==> path[p] == '/'
    ensures forall q :: p < q < |path| ==> path[q] != '/'
  {
    if path == [] then -1
    else if path[|path| - 1] == '/' then |path| - 1
    else LastSlash(path[..|path| - 1])
  }

  /** `path` without the slashes at its end. */
  function StripSlashes(path: string): (r: string)
    ensures |r| <= |path| && r == path[..|r|]
    ensures r == [] || r[|r| - 1] != '/'
    ensures forall q :: |r| <= q < |path| ==> path[q] == '/'
  {
    if path != [] && path[|path| - 1] == '/' then StripSlashes(path[..|path| - 1]) else path
  }

  /**
   * `pathinfo($fname)['dirname']` on `/`-separated paths: trailing slashes
   * are ignored, then the last component and the slashes before it are
   * dropped; `/` when nothing but slashes is left, `.` when there is no
   * slash. The empty path has no dirname entry, which reads as `''`.
   */
  function Dirname(path: string): (r: string)
    ensures r == [] <==> path == []
    ensures path != [] && StripSlashes(path) == [] ==> r == "/"
    ensures var t := StripSlashes(path); t != [] && LastSlash(t) < 0 ==> r == "."
    ensures var t := StripSlashes(path); t != [] && LastSlash(t) >= 0 ==>
      || (r == "/" && forall q :: 0 <= q < LastSlash(t) ==> path[q] == '/')
      || (0 < |r| <= LastSlash(t) && r == path[..|r|] && r[|r| - 1] != '/' &&
          forall q :: |r| <= q <= LastSlash(t) ==> path[q] == '/')
  {
    if path == [] then []
    else
      var t := StripSlashes(path);
      if t == [] then "/"
      else
        var p := LastSlash(t);
        if p < 0 then "."
        else
          var h := StripSlashes(t[..p]);
          if h == [] then "/" else h
  }

  /** Slashes at the end of a path do not change its dirname. */
  lemma DirnameTrailingSlash(path: string)
    requires path != []
    ensures Dirname(path + "/") == Dirname(path)
  {
    var u := path + "/";
    assert u[..|u| - 1] == path;
  }

  /** A component with no slash in it. */
  predicate IsComponent(name: string)
  {
    name != [] && forall q :: 0 <= q < |name| ==> name[q] != '/'
  }

  /** A bare file name lies in `.`. */
  lemma DirnameNoSlash(name: string)
    requires IsComponent(name)
    ensures Dirname(name) == "."
  {
    assert StripSlashes(name) == name;
  }

  /** The dirname of `dir/name` is `dir`, for a `dir` that does not end in a slash. */
  lemma DirnameOfChild(dir: string, name: string)
    requires dir != [] && dir[|dir| - 1] != '/' && IsComponent(name)
    ensures Dirname(dir + "/" + name) == dir
  {
    var path := dir + "/" + name;
    assert StripSlashes(path) == path;
    assert path[|dir|] == '/';
    assert forall q :: |dir| < q < |path| ==> path[q] == name[q - |dir| - 1];
    assert LastSlash(path) == |dir|;
    assert path[..|dir|] == dir;
    assert StripSlashes(dir) == dir;
  }

  /** A name right under the root lies in `/`. */
  lemma DirnameTopLevel(name: string)
    requires IsComponent(name)
    ensures Dirname("/" + name) == "/"
  {
    var path := "/" + name;
    assert StripSlashes(path) == path;
    assert path[0] == '/';
    assert forall q :: 0 < q < |path| ==> path[q] == name[q - 1];
    assert LastSlash(path) == 0;
  }

  // ---------------------------------------------------------------------
  // The require handler
  // ---------------------------------------------------------------------

  /** The record `__compileFunctions` hands to a handler. */
  datatype Settings = Settings(text: string, attributes: seq<Arg>, fullCall: string, importDir: ImportDir)

  /** `.jess` is appended unless the name already contains it somewhere. */
  function WithExtension(name: string): (f: string)
    ensures Contains(f, ".jess")
    ensures f == name <==> Contains(name, ".jess")
    ensures !Contains(name, ".jess") ==> f == name + ".jess"
  {
    if Contains(name, ".jess") then name
    else
      assert OccursAt(".jess", name + ".jess", |name|) by {
        assert (name + ".jess")[|name|..|name| + 5] == ".jess";
      }
      name + ".jess"
  }

  /** `jess.require('foo')` and `jess.require('foo.jess')` look for the same file. */
  lemma ExtensionOptional(name: string)
    requires !Contains(name, ".jess")
    ensures WithExtension(name) == WithExtension(name + ".jess")
  {
  }

  /** The first directory, in search order, that holds `dir + name`. */
  function FirstDir(dirs: seq<string>, name: string, fs: FileSystem): (j: Option<nat>)
    ensures j.Some? ==> j.value < |dirs| && dirs[j.value] + name in fs
    ensures j.Some? ==> forall k :: 0 <= k < j.value ==> dirs[k] + name !in fs
    ensures j.None? <==> forall k :: 0 <= k < |dirs| ==> dirs[k] + name !in fs
    decreases |dirs|
  {
    if dirs == [] then None
    else if dirs[0] + name in fs then Some(0)
    else
      match FirstDir(dirs[1..], name, fs)
      case None => None
      case Some(j) => Some(j + 1)
  }

  /** `str_replace($search, $replace, $subject)`; an empty search leaves the subject alone. */
  function Replace(subject: string, search: string, replace: string): string
  {
    if search == [] then subject else ReplaceAll(subject, search, replace)
  }

  /** `str_replace` leaves the subject alone for an empty search, a search it does not hold, or a search replaced by itself. */
  lemma ReplaceKeeps(subject: string, search: string, replace: string)
    ensures search == [] || !Occurs(search, subject) || search == replace ==> Replace(subject, search, replace) == subject
  {
    if search != [] && !Occurs(search, subject) {
      ReplaceAllAbsent(subject, search, replace);
    }
  }

  /** Which `js_` methods `method_exists` finds, case-insensitively: only `js_require`. */
  predicate IsHandler(name: string)
  {
    LowerString(name) == "require"
  }

  /** Finding the handler ignores letter case, and only a seven-letter name can name it. */
  lemma HandlerCaseless(name: string)
    ensures IsHandler(name) <==> IsHandler(LowerString(name))
    ensures IsHandler(name) ==> |name| == 7
  {
    LowerIdempotent(name);
  }

  /**
   * What `__compileFunctions` returns for `s` when the compiler's search
   * path is `dirs`.
   */
  ghost function CompileSpec(dirs: ImportDir, fs: FileSystem, s: string, fuel: nat): Result<string, Error>
    decreases fuel, 2
  {
    FoldCalls(dirs, fs, s, Scan(s, 0), fuel)
  }

  /** The `foreach` over the calls found in the original text, each handler rewriting the current text. */
  ghost function FoldCalls(dirs: ImportDir, fs: FileSystem, acc: string, calls: seq<Call>, fuel: nat): Result<string, Error>
    decreases fuel, 1, |calls|
  {
    if calls == [] then Success(acc)
    else if !IsHandler(calls[0].name) then FoldCalls(dirs, fs, acc, calls[1..], fuel)
    else
      var st := Settings(acc, ParseSpec(ExplodeSpec(calls[0].args)), calls[0].full, dirs);
      match RequireSpec(st, dirs, fs, fuel)
      case Failure(e) => Failure(e)
      case Success(next) => FoldCalls(dirs, fs, next, calls[1..], fuel)
  }

  /**
   * `js_require`: check the arguments, find the file in the first directory
   * that has it, compile it with the compiler's own search path `dirs` and
   * put it in place of every occurrence of the call.
   */
  ghost function RequireSpec(st: Settings, dirs: ImportDir, fs: FileSystem, fuel: nat): Result<string, Error>
    decreases fuel, 0
  {
    if |st.attributes| == 0 then Failure(NoArguments)
    else if !st.attributes[0].StringArg? then Failure(NotAString)
    else if |st.attributes| > 1 then Failure(TooManyArguments)
    else
      var fileName := WithExtension(st.attributes[0].value);
      var search := Dirs(st.importDir);
      match FirstDir(search, fileName, fs)
      case None => Failure(CannotRequire(fileName))
      case Some(j) =>
        if fuel == 0 then Failure(NestingTooDeep)
        else
          match CompileSpec(dirs, fs, fs[search[j] + fileName].contents, fuel - 1)
          case Failure(e) => Failure(e)
          case Success(file) => Success(Replace(st.text, st.fullCall, file))
  }

  /**
   * `js_require` succeeds only on exactly one string argument naming a file
   * that some search directory holds, within the nesting bound.
   */
  lemma RequireSucceedsOnlyIf(st: Settings, dirs: ImportDir, fs: FileSystem, fuel: nat)
    ensures RequireSpec(st, dirs, fs, fuel).Success? ==>
      && fuel > 0 && |st.attributes| == 1 && st.attributes[0].StringArg?
      && FirstDir(Dirs(st.importDir), WithExtension(st.attributes[0].value), fs).Some?
  {
  }

  /** Text in which the scan finds no call comes back unchanged. */
  lemma CompileNoCalls(dirs: ImportDir, fs: FileSystem, s: string, fuel: nat)
    requires Scan(s, 0) == []
    ensures CompileSpec(dirs, fs, s, fuel) == Success(s)
  {
  }

  /** Text without `jess`, in any letter case, comes back unchanged. */
  lemma CompileWithoutJess(dirs: ImportDir, fs: FileSystem, s: string, fuel: nat)
    requires !Occurs("jess", LowerString(s))
    ensures CompileSpec(dirs, fs, s, fuel) == Success(s)
  {
    NoJessNoCalls(s);
  }

  /** Calls whose name has no `js_` method are passed over: they stay in the text as they are. */
  lemma {:induction false} UnknownCallsKept(dirs: ImportDir, fs: FileSystem, acc: string, calls: seq<Call>, fuel: nat)
    requires forall n :: 0 <= n < |calls| ==> !IsHandler(calls[n].name)
    ensures FoldCalls(dirs, fs, acc, calls, fuel) == Success(acc)
    decreases |calls|
  {
    if calls != [] {
      assert !IsHandler(calls[0].name);
      UnknownCallsKept(dirs, fs, acc, calls[1..], fuel);
    }
  }

  /** Text whose every call names an unknown directive comes back unchanged. */
  lemma CompileUnknownOnly(dirs: ImportDir, fs: FileSystem, s: string, fuel: nat)
    requires forall n :: 0 <= n < |Scan(s, 0)| ==> !IsHandler(Scan(s, 0)[n].name)
    ensures CompileSpec(dirs, fs, s, fuel) == Success(s)
  {
    UnknownCallsKept(dirs, fs, s, Scan(s, 0), fuel);
  }

  /**
   * The checks of `js_require` come in a fixed order: no argument, then a
   * first argument that is not a string (whatever follows it), then more
   * than one argument.
   */
  lemma RequireErrorOrder(st: Settings, dirs: ImportDir, fs: FileSystem, fuel: nat)
    ensures |st.attributes| == 0 ==> RequireSpec(st, dirs, fs, fuel) == Failure(NoArguments)
    ensures |st.attributes| > 0 && st.attributes[0].ObjectArg? ==> RequireSpec(st, dirs, fs, fuel) == Failure(NotAString)
    ensures |st.attributes| > 1 && st.attributes[0].StringArg? ==> RequireSpec(st, dirs, fs, fuel) == Failure(TooManyArguments)
  {
  }

  /**
   * With one string argument, the first directory holding the file wins:
   * every occurrence of the call is replaced by that file compiled, whatever
   * later directories hold.
   */
  lemma RequireFirstDirWins(st: Settings, dirs: ImportDir, fs: FileSystem, fuel: nat, k: nat, file: string)
    requires |st.attributes| == 1 && st.attributes[0].StringArg?
    requires k < |Dirs(st.importDir)| && fuel > 0
    requires var f := WithExtension(st.attributes[0].value);
      && Dirs(st.importDir)[k] + f in fs
      && (forall m :: 0 <= m < k ==> Dirs(st.importDir)[m] + f !in fs)
      && CompileSpec(dirs, fs, fs[Dirs(st.importDir)[k] + f].contents, fuel - 1) == Success(file)
    ensures RequireSpec(st, dirs, fs, fuel) == Success(Replace(st.text, st.fullCall, file))
  {
    var f := WithExtension(st.attributes[0].value);
    var j := FirstDir(Dirs(st.importDir), f, fs);
    assert j == Some(k);
  }

  /** With one string argument that no directory holds, `require` fails naming the file with its extension. */
  lemma RequireMissing(st: Settings, dirs: ImportDir, fs: FileSystem, fuel: nat)
    requires |st.attributes| == 1 && st.attributes[0].StringArg?
    requires forall m :: 0 <= m < |Dirs(st.importDir)| ==> Dirs(st.importDir)[m] + WithExtension(st.attributes[0].value) !in fs
    ensures RequireSpec(st, dirs, fs, fuel) == Failure(CannotRequire(WithExtension(st.attributes[0].value)))
  {
  }

  /** `compile` called on its own, with the search path still the string `''`, can require nothing. */
  lemma RequireWithoutSearchPath(st: Settings, dirs: ImportDir, fs: FileSystem, fuel: nat)
    requires st.importDir.Single? && |st.attributes| == 1 && st.attributes[0].StringArg?
    ensures RequireSpec(st, dirs, fs, fuel) == Failure(CannotRequire(WithExtension(st.attributes[0].value)))
  {
  }

  /**
   * The nesting bound only ever cuts a compile short: a result reached
   * without running out of it stays the same with more.
   */
  lemma {:induction false} CompileMoreFuel(dirs: ImportDir, fs: FileSystem, s: string, fuel: nat)
    requires CompileSpec(dirs, fs, s, fuel) != Failure(NestingTooDeep)
    ensures CompileSpec(dirs, fs, s, fuel + 1) == CompileSpec(dirs, fs, s, fuel)
    decreases fuel, 2
  {
    FoldMoreFuel(dirs, fs, s, Scan(s, 0), fuel);
  }

  lemma {:induction false} FoldMoreFuel(dirs: ImportDir, fs: FileSystem, acc: string, calls: seq<Call>, fuel: nat)
    requires FoldCalls(dirs, fs, acc, calls, fuel) != Failure(NestingTooDeep)
    ensures FoldCalls(dirs, fs, acc, calls, fuel + 1) == FoldCalls(dirs, fs, acc, calls, fuel)
    decreases fuel, 1, |calls|
  {
    if calls != [] {
      if !IsHandler(calls[0].name) {
        FoldMoreFuel(dirs, fs, acc, calls[1..], fuel);
      } else {
        var st := Settings(acc, ParseSpec(ExplodeSpec(calls[0].args)), calls[0].full, dirs);
        var r := RequireSpec(st, dirs, fs, fuel);
        assert r != Failure(NestingTooDeep);
        RequireMoreFuel(st, dirs, fs, fuel);
        if r.Success? {
          FoldMoreFuel(dirs, fs, r.value, calls[1..], fuel);
        }
      }
    }
  }

  lemma {:induction false} RequireMoreFuel(st: Settings, dirs: ImportDir, fs: FileSystem, fuel: nat)
    requires RequireSpec(st, dirs, fs, fuel) != Failure(NestingTooDeep)
    ensures RequireSpec(st, dirs, fs, fuel + 1) == RequireSpec(st, dirs, fs, fuel)
    decreases fuel, 0
  {
    if |st.attributes| == 1 && st.attributes[0].StringArg? {
      var fileName := WithExtension(st.attributes[0].value);
      var search := Dirs(st.importDir);
      match FirstDir(search, fileName, fs)
      case None =>
      case Some(j) =>
        var contents := fs[search[j] + fileName].contents;
        assert fuel > 0;
        assert CompileSpec(dirs, fs, contents, fuel - 1) != Failure(NestingTooDeep);
        CompileMoreFuel(dirs, fs, contents, fuel - 1);
    }
  }

  /** The directive `jess.require('a');` on its own. */
  const RequireA: string := "jess.require('a');"

  lemma ShapeRequireA()
    ensures ShapeAt(RequireA, 0, 4, 5, 12, 16)
  {
    var s := RequireA;
    assert s[0] == 'j' && s[1] == 'e' && s[2] == 's' && s[3] == 's' && s[4] == '.';
    assert s[12] == '(' && s[13] == '\'' && s[14] == 'a' && s[15] == '\'' && s[16] == ')' && s[17] == ';';
    assert IsNameChar(s[5]) && IsNameChar(s[6]) && IsNameChar(s[7]) && IsNameChar(s[8]);
    assert IsNameChar(s[9]) && IsNameChar(s[10]) && IsNameChar(s[11]);
  }

  lemma MatchRequireA()
    ensures MatchAt(RequireA, 0) == Some((Call("require", "'a'", RequireA), 18))
  {
    var s := RequireA;
    ShapeRequireA();
    assert s[5..12] == "require" && s[13..16] == "'a'" && s[0..18] == s;
    MatchAtShape(s, 0, 4, 5, 12, 16, Call("require", "'a'", RequireA), 18);
  }

  /** The scan finds the one call in `RequireA`: the name `require`, the argument text `'a'`, the whole text. */
  lemma ScanRequireA()
    ensures Scan(RequireA, 0) == [Call("require", "'a'", RequireA)]
  {
    MatchRequireA();
    assert Scan(RequireA, 18) == [];
  }

  /** `require` names the handler. */
  lemma RequireIsHandler()
    ensures IsHandler("require")
  {
    var t := LowerString("require");
    assert t[0] == 'r' && t[1] == 'e' && t[2] == 'q' && t[3] == 'u' && t[4] == 'i' && t[5] == 'r' && t[6] == 'e';
  }

  /** The argument text `'a'` parses to the one string argument `a`. */
  lemma ArgumentsRequireA()
    ensures ParseSpec(ExplodeSpec("'a'")) == [StringArg("a")]
  {
    ParseQuotedName('\'', "a");
    assert ['\''] + "a" + ['\''] == "'a'";
  }

  /** `a` is looked for as `a.jess`. */
  lemma ExtensionRequireA()
    ensures WithExtension("a") == "a.jess"
  {
    assert !OccursAt(".jess", "a", 0);
    assert !Contains("a", ".jess");
  }

  /** A call that makes up the whole text is replaced by the file as a whole. */
  lemma ReplaceWhole(s: string, rep: string)
    requires s != []
    ensures Replace(s, s, rep) == rep
  {
    assert s[..|s|] == s;
    assert ReplaceAll(s, s, rep) == rep + ReplaceAll(s[|s|..], s, rep);
    assert ReplaceAll(s[|s|..], s, rep) == [];
  }

  /** A single handler call whose handler succeeds leaves the handler's text. */
  lemma FoldOne(dirs: ImportDir, fs: FileSystem, acc: string, call: Call, fuel: nat, out: string)
    requires IsHandler(call.name)
    requires RequireSpec(Settings(acc, ParseSpec(ExplodeSpec(call.args)), call.full, dirs), dirs, fs, fuel) == Success(out)
    ensures FoldCalls(dirs, fs, acc, [call], fuel) == Success(out)
  {
    var none: seq<Call> := [];
    assert [call][1..] == none;
    assert FoldCalls(dirs, fs, out, none, fuel) == Success(out);
    assert FoldCalls(dirs, fs, acc, [call], fuel) == FoldCalls(dirs, fs, out, none, fuel);
  }

  /** The handler, given `jess.require('a');` as call and text, returns the file. */
  lemma RequireStepA(s: string, dir: string, fs: FileSystem, fuel: nat)
    requires s == RequireA && fuel > 0 && dir + "a.jess" in fs
    requires !Occurs("jess", LowerString(fs[dir + "a.jess"].contents))
    ensures RequireSpec(Settings(s, [StringArg("a")], s, List([dir])), List([dir]), fs, fuel)
      == Success(fs[dir + "a.jess"].contents)
  {
    CompileWithoutJess(List([dir]), fs, fs[dir + "a.jess"].contents, fuel - 1);
    ExtensionRequireA();
    ReplaceWhole(s, fs[dir + "a.jess"].contents);
    assert FirstDir([dir], "a.jess", fs) == Some(0);
  }

  /**
   * `jess.require('a');` compiles to the contents of `a.jess` in the first
   * directory of the search path, when that file holds no directive itself.
   */
  lemma RequireInlined(s: string, dir: string, fs: FileSystem, fuel: nat)
    requires s == RequireA && fuel > 0 && dir + "a.jess" in fs
    requires !Occurs("jess", LowerString(fs[dir + "a.jess"].contents))
    ensures CompileSpec(List([dir]), fs, s, fuel) == Success(fs[dir + "a.jess"].contents)
  {
    RequireStepA(s, dir, fs, fuel);
    FoldRequireA(List([dir]), fs, s, fuel, fs[dir + "a.jess"].contents);
  }

  lemma FoldRequireA(dirs: ImportDir, fs: FileSystem, s: string, fuel: nat, out: string)
    requires s == RequireA
    requires RequireSpec(Settings(s, [StringArg("a")], s, dirs), dirs, fs, fuel) == Success(out)
    ensures CompileSpec(dirs, fs, s, fuel) == Success(out)
  {
    ScanRequireA();
    RequireIsHandler();
    ArgumentsRequireA();
    FoldOne(dirs, fs, s, Call("require", "'a'", s), fuel, out);
  }

  // ---------------------------------------------------------------------
  // The cache record of `cachedCompile`
  // ---------------------------------------------------------------------

  /** `$in['files']`: missing or null, an array of path to modification time, or some other value. */
  datatype FilesEntry = NoFiles | Times(times: map<string, int>) | NotAnArray

  /**
   * What `cachedCompile` takes and gives back: a root path passed as a
   * string, an array with the keys it reads and writes, or any other value.
   */
  datatype CacheValue =
    | Path(path: string)
    | Record(root: Option<string>, files: FilesEntry, compiled: Option<string>, updated: Option<int>)
    | Other

  /** The three ways `cachedCompile` goes: compile `root` afresh, hand the input back, or return null. */
  datatype Decision = Rebuild(root: string) | Keep | Reject

  /** A recorded file is out of date: gone, or modified after the recorded time. */
  predicate Changed(f: string, time: int, fs: FileSystem)
  {
    f !in fs || fs[f].mtime > time
  }

  /** Which way `cachedCompile` goes for its input. */
  ghost function Decide(input: CacheValue, force: bool, fs: FileSystem): (d: Decision)
    ensures d == Reject <==> input.Other? || (input.Record? && input.root.None?)
    ensures input.Path? ==> d == Rebuild(input.path)
    ensures d.Rebuild? && input.Record? ==> input.root == Some(d.root)
    ensures input.Record? && input.root.Some? && (force || input.files.NoFiles?) ==> d.Rebuild?
    ensures input.Record? && input.root.Some? && !force && input.files.NotAnArray? ==> d == Keep
    ensures input.Record? && input.root.Some? && !force && input.files.Times? ==>
      (d == Keep <==> forall f :: f in input.files.times ==> !Changed(f, input.files.times[f], fs))
  {
    match input
    case Path(p) => Rebuild(p)
    case Other => Reject
    case Record(root, files, _, _) =>
      if root.None? then Reject
      else if force || files.NoFiles? then Rebuild(root.value)
      else if files.Times? && exists f :: f in files.times && Changed(f, files.times[f], fs) then Rebuild(root.value)
      else Keep
  }

  /** The record a rebuild of `root` returns. */
  function Rebuilt(root: string, fs: FileSystem, compiled: string, now: int): CacheValue
    requires root in fs
  {
    Record(Some(root), Times(map[root := fs[root].mtime]), Some(compiled), Some(now))
  }

  /** Fed back unchanged against the same files, a freshly rebuilt record is kept. */
  lemma RebuiltIsKept(root: string, fs: FileSystem, compiled: string, now: int)
    requires root in fs
    ensures Decide(Rebuilt(root, fs, compiled, now), false, fs) == Keep
  {
    var times := map[root := fs[root].mtime];
    assert forall f :: f in times ==> f == root;
  }

  /** Once the root is touched or removed, the same record is rebuilt from the same root. */
  lemma RootChangedRebuilds(root: string, fs: FileSystem, compiled: string, now: int, fs': FileSystem)
    requires root in fs && (root !in fs' || fs'[root].mtime > fs[root].mtime)
    ensures Decide(Rebuilt(root, fs, compiled, now), false, fs') == Rebuild(root)
  {
    var times := map[root := fs[root].mtime];
    assert root in times && Changed(root, times[root], fs');
  }

  // ---------------------------------------------------------------------
  // The compiler object
  // ---------------------------------------------------------------------

  /** `JessCompiler`: the search path and the files read by the last `compileFile`. */
  class JessCompiler {
    var importDir: ImportDir
    var allParsedFiles: map<string, int>

    constructor ()
      ensures importDir == Single("") && allParsedFiles == map[]
    {
      importDir := Single("");
      allParsedFiles := map[];
    }

    /** `compile($string)`: the directive pass over the text. */
    method Compile(s: string, fs: FileSystem, fuel: nat) returns (out: Result<string, Error>)
      ensures out == CompileSpec(importDir, fs, s, fuel)
      decreases fuel, 2
    {
      out := CompileFunctions(s, fs, fuel);
    }

    /**
     * `__compileFunctions($string)`: find every call in the text as it was
     * given, then let each call with a handler rewrite the current text. An
     * exception from a handler ends the pass.
     */
    method CompileFunctions(s: string, fs: FileSystem, fuel: nat) returns (out: Result<string, Error>)
      ensures out == CompileSpec(importDir, fs, s, fuel)
      decreases fuel, 1
    {
      var functionCalls := Scan(s, 0);
      var text := s;
      var i := 0;
      while i < |functionCalls|
        invariant i <= |functionCalls|
        invariant FoldCalls(importDir, fs, text, functionCalls[i..], fuel) == CompileSpec(importDir, fs, s, fuel)
      {
        var call := functionCalls[i];
        assert functionCalls[i..][1..] == functionCalls[i + 1..];
        var attributes := ParseFunctionArguments(call.args);
        if IsHandler(call.name) {
          var r := JessJsObject.Require(Settings(text, attributes, call.full, importDir), this, fs, fuel);
          if r.Failure? {
            return Failure(r.error);
          }
          text := r.value;
        }
        i := i + 1;
      }
      return Success(text);
    }

    /**
     * `cachedCompile($in, $force)`: decide from the input whether to
     * rebuild, looking through the recorded files until one has changed,
     * and if so compile the root file into a new record stamped `now`.
     */
    method CachedCompile(input: CacheValue, force: bool, fs: FileSystem, now: int, fuel: nat) returns (out: Result<Option<CacheValue>, Error>)
      modifies this
      ensures Decide(input, force, fs) == Reject ==>
        out == Success(None) && importDir == old(importDir) && allParsedFiles == old(allParsedFiles)
      ensures Decide(input, force, fs) == Keep ==>
        out == Success(Some(input)) && importDir == old(importDir) && allParsedFiles == old(allParsedFiles)
      ensures Decide(input, force, fs).Rebuild? && Decide(input, force, fs).root !in fs ==>
        var root := Decide(input, force, fs).root;
        out == Failure(FailedToFind(root)) && importDir == old(importDir) && allParsedFiles == old(allParsedFiles)
      ensures Decide(input, force, fs).Rebuild? && Decide(input, force, fs).root in fs ==>
        var root := Decide(input, force, fs).root;
        var c := CompileSpec(SearchPath(old(importDir), root), fs, fs[root].contents, fuel);
        && out == (if c.Success? then Success(Some(Rebuilt(root, fs, c.value, now))) else Failure(c.error))
        && allParsedFiles == map[root := fs[root].mtime]
        && importDir == if c.Success? then old(importDir) else SearchPath(old(importDir), root)
    {
      var root: Option<string> := None;
      match input {
        case Path(p) =>
          root := Some(p);
        case Other =>
          return Success(None);
        case Record(r, files, _, _) =>
          if r.None? {
            return Success(None);
          }
          if force || files.NoFiles? {
            root := r;
          } else if files.Times? {
            var pending := files.times.Keys;
            while pending != {}
              invariant pending <= files.times.Keys && root.None?
              invariant forall f :: f in files.times && f !in pending ==> !Changed(f, files.times[f], fs)
              decreases |pending|
            {
              var fname :| fname in pending;
              if fname !in fs || fs[fname].mtime > files.times[fname] {
                root := r;
                break;
              }
              pending := pending - {fname};
            }
          }
      }
      if root.None? {
        return Success(Some(input));
      }
      var compiled := CompileFile(root.value, fs, fuel);
      if compiled.Failure? {
        return Failure(compiled.error);
      }
      return Success(Some(Record(root, Times(allParsedFiles), Some(compiled.value), Some(now))));
    }

    /** `_addParsedFile($file)`: remember the file with its modification time. */
    method AddParsedFile(file: string, fs: FileSystem)
      requires file in fs
      modifies this
      ensures allParsedFiles == old(allParsedFiles)[file := fs[file].mtime]
      ensures importDir == old(importDir)
    {
      allParsedFiles := allParsedFiles[file := fs[file].mtime];
    }

    /**
     * `compileFile($fname)`: fail on a missing file; otherwise append the
     * file's directory to the search path, reset the parsed files to the
     * root, compile and put the search path back. An exception thrown by
     * the compile leaves the longer search path in place.
     */
    method CompileFile(fname: string, fs: FileSystem, fuel: nat) returns (out: Result<string, Error>)
      modifies this
      ensures fname !in fs ==>
        out == Failure(FailedToFind(fname)) && importDir == old(importDir) && allParsedFiles == old(allParsedFiles)
      ensures fname in fs ==>
        && out == CompileSpec(SearchPath(old(importDir), fname), fs, fs[fname].contents, fuel)
        && allParsedFiles == map[fname := fs[fname].mtime]
        && importDir == if out.Success? then old(importDir) else SearchPath(old(importDir), fname)
    {
      if fname !in fs {
        return Failure(FailedToFind(fname));
      }
      var oldImport := importDir;
      importDir := SearchPath(importDir, fname);
      allParsedFiles := map[];
      AddParsedFile(fname, fs);
      out := Compile(fs[fname].contents, fs, fuel);
      if out.Failure? {
        return;
      }
      importDir := oldImport;
    }
  }

  /** The search path during `compileFile($fname)`: the old one as an array, then the file's directory. */
  function SearchPath(importDir: ImportDir, fname: string): (d: ImportDir)
    ensures d.List? && |d.dirs| == |Cast(importDir)| + 1
    ensures d.dirs[..|Cast(importDir)|] == Cast(importDir)
    ensures d.dirs[|Cast(importDir)|] == Dirname(fname) + "/"
  {
    List(Cast(importDir) + [Dirname(fname) + "/"])
  }

  /** The object whose `js_` methods are the directives. */
  class JessJsObject {

    /**
     * `js_require($settings, $jessc)`: the argument checks in their order,
     * then the search over the directories with `break` at the first hit.
     */
    static method Require(settings: Settings, jessc: JessCompiler, fs: FileSystem, fuel: nat) returns (r: Result<string, Error>)
      ensures r == RequireSpec(settings, jessc.importDir, fs, fuel)
      decreases fuel, 0
    {
      var attributes := settings.attributes;
      if |attributes| == 0 {
        return Failure(NoArguments);
      } else if !attributes[0].StringArg? {
        return Failure(NotAString);
      } else if |attributes| > 1 {
        return Failure(TooManyArguments);
      }
      var fileName := attributes[0].value;
      if !Contains(fileName, ".jess") {
        fileName := fileName + ".jess";
      }
      var text := settings.text;
      var file: Option<string> := None;
      var dirs := Dirs(settings.importDir);
      var i := 0;
      while i < |dirs|
        invariant i <= |dirs| && file.None?
        invariant forall k :: 0 <= k < i ==> dirs[k] + fileName !in fs
      {
        var dir := dirs[i];
        if dir + fileName in fs {
          assert FirstDir(dirs, fileName, fs) == Some(i);
          if fuel == 0 {
            return Failure(NestingTooDeep);
          }
          var compiled := jessc.Compile(fs[dir + fileName].contents, fs, fuel - 1);
          if compiled.Failure? {
            return Failure(compiled.error);
          }
          file := Some(compiled.value);
          text := Replace(text, settings.fullCall, compiled.value);
          break;
        }
        i := i + 1;
      }
      if file.None? {
        return Failure(CannotRequire(fileName));
      }
      return Success(text);
    }
  }
}
