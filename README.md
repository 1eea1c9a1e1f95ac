# jessphp compiler core, modelled in Dafny

jessphp compiles `.jess` files into one JavaScript file. Its compiler
(`jessc.php`) works on text. It scans the source for directive calls of the
form `jess.<name>(<args>);`, splits and classifies their arguments, and lets
the handler of each known directive rewrite the text. The one handler is
`require`, which inlines another compiled `.jess` file. Around this pass sit
two more pieces: `compileFile`, which keeps the search path of import
directories, and `cachedCompile`, which decides from a cache record whether
the root file must be compiled again.

The project has these modules:

- `Text`: the PHP string primitives the compiler relies on: ASCII lower-casing, `strpos`, `str_replace` and `trim`.
- `Exploding`: the argument splitter `__exploder`, with a hidden group kept as a token `Hole(n)` of its own. The method `Explode` is proved equal to a reference splitter, which cuts the input at every comma that no matched pair of parentheses encloses and trims each piece.
- `ExplodeFacts`: what the splitter promises about its pieces: how many there are, that they are trimmed, that they join back into the input, and that no cut falls inside a group.
- `Arguments`: the argument classifier (`__isString`, `__isObject`, `__parseString`, `__parseFunctionArguments`).
- `Scanner`: a left-to-right scanner for the pattern `jess\s*\.\s*([a-z0-9_]*)\((.*?)\);` with the flags `smi`. It is proved sound and complete against a positional description of the pattern.
- `Compiler`: the directive pass, the `require` handler, the search path of `compileFile` and the staleness check of `cachedCompile`. The classes `JessCompiler` and `JessJsObject` keep the source's fields and loops. Each method is proved equal to a specification function about which the lemmas speak.
- `AsWritten`: `__exploder` exactly as written, with its placeholders as the text `{{n}}`. It shows the discrepancies listed under Findings.

The environment becomes parameters:

- The file system is a map from path to `File(contents, mtime)`. `file_exists`, `is_readable`, `file_get_contents` and `filemtime` read that map.
- `realpath` is the identity.
- The clock that `time()` reads is the parameter `now`.
- The recursion of nested requires carries a bound `fuel`. A require nested more deeply fails with `NestingTooDeep`. `Compiler.CompileMoreFuel` shows that the bound never changes any other outcome.

Three behaviours of the code are easy to miss; the model keeps them:

- A nested require is compiled with `compile` (jessc.php:328), not `compileFile`. So a required file's directory is never added to the search path: a nested require is looked for only in the directories of the root file's search path, and only the root file is recorded in `allParsedFiles`.
- When the compile throws, `compileFile` does not put the search path back: the assignment at jessc.php:115 is never reached.
- An object argument is whatever `json_decode` makes of it (jessc.php:227). Invalid JSON gives null rather than an error.

## Model

| member | source | states |
|---|---|---|
| Text.LowerString | jessc.php:145 | ASCII lower-casing, position by position: the caseless matching of the `i` flag and of `method_exists` |
| Text.LowerIdempotent | jessc.php:154 | lower-casing a lower-cased name changes nothing more |
| Text.Find | jessc.php:320 | `strpos`: the first position where the pattern occurs, or -1 exactly when it occurs nowhere |
| Text.Contains | jessc.php:320 | `strpos(...) !== false`: true exactly when the pattern occurs somewhere in the text |
| Text.ReplaceAllAbsent | jessc.php:330 | `str_replace` leaves a text in which the search string never occurs unchanged |
| Text.ReplaceAllOnce | jessc.php:330 | `str_replace` on a text that starts with the search string and has no further occurrence swaps just that prefix |
| Text.ReplaceAll | jessc.php:330 | `str_replace` replacing a search by itself changes nothing, and the text never grows when the replacement is no longer than the search, never shrinks when it is no shorter |
| Text.TrimFacts | jessc.php:193 | `trim` yields a text with no strippable character at either end, and leaves such a text alone |
| Text.TrimPadding | jessc.php:193 | `trim` keeps a contiguous part of the text and removes only strippable characters, all before or after that part |
| Exploding.Explode | jessc.php:176-203 | `__exploder` returns exactly the reference pieces: the input cut at every comma outside matched parentheses, each piece trimmed |
| Exploding.Protect | jessc.php:181-192 | the hiding loop ends with no innermost group left, every placeholder names a recorded group, and the tokens with their groups put back still spell the input |
| Exploding.ProtectAll | jessc.php:184-188 | one round numbers each match in turn; the meaning is kept, the table grows by the number of matches, and a round with a match removes at least one `(`, which is why the loop ends |
| Exploding.ProtectStep | jessc.php:186-187 | hiding one group behind the next number keeps what the text stands for and never adds an opening parenthesis |
| Exploding.Groups | jessc.php:179-183 | every match of `\([^()]*\)` is a group that occurs in the text, and there is no match exactly when no group starts anywhere |
| Exploding.RestoreStep | jessc.php:197-198 | putting back the first placeholder everywhere keeps what the piece stands for and strictly lowers its weight, so the inner loop ends |
| Exploding.Restore | jessc.php:197-199 | the restoring loop ends with the piece fully expanded: no placeholder survives |
| Exploding.RestoreAll | jessc.php:196-200 | every piece of the split is restored, in order |
| Exploding.SplitTokJoin | jessc.php:193 | `explode(',')` on the protected text: the pieces joined with commas give the text back |
| Exploding.SplitTokCommaFree | jessc.php:193 | no piece of `explode(',')` holds a comma |
| Exploding.FirstHole | jessc.php:197 | `preg_match` finds the leftmost placeholder: only plain characters come before it |
| Exploding.TrimTokExpand | jessc.php:193 | trimming a protected piece and then restoring it gives the restored piece trimmed |
| Exploding.CommaTokenIsTop | jessc.php:193 | a comma still visible once no group is left is a comma outside every matched pair of the input |
| Exploding.ProtectedSplit | jessc.php:193-200 | splitting, trimming and restoring the protected text gives the reference pieces of the input |
| ExplodeFacts.ExplodeCount | jessc.php:176-203 | there is one piece more than there are commas outside parentheses |
| ExplodeFacts.ExplodeEmpty | jessc.php:193 | the empty argument text gives exactly one empty piece |
| ExplodeFacts.ExplodeTrimmed | jessc.php:193 | every piece is trimmed |
| ExplodeFacts.ExplodeJoin | jessc.php:176-203 | with no whitespace at the ends or around a comma, joining the pieces with `,` gives the input back |
| ExplodeFacts.TopLevelPiecesEnclosed | jessc.php:177-181 | no cut falls inside a group: every comma left in a piece lies inside a matched pair within that piece |
| Arguments.ParseString | jessc.php:264-266 | the text between the first and last character; a text shorter than two gives the empty string |
| Arguments.StringOrObject | jessc.php:244-256 | `__isString` holds exactly for a text between two equal quote characters (a lone quote counts); `__isObject` needs at least two characters, and no text is both |
| Arguments.Classify | jessc.php:216-231 | a piece is dropped exactly when it is neither quoted nor braced; a quoted piece is the text between two equal quotes, a braced one its raw text |
| Arguments.QuotedRoundTrip | jessc.php:218-222 | any text between two equal quote characters is classified as that very string |
| Arguments.ParseSpec | jessc.php:215-234 | the kept arguments are never more than the pieces, and a kept first piece is the first argument |
| Arguments.ParseAppend | jessc.php:216-232 | the classifier keeps order: classifying a concatenation concatenates the results |
| Arguments.ParseKeepsAll | jessc.php:216-232 | no piece is lost exactly when every piece is a string or an object |
| Arguments.ParseFromPieces | jessc.php:216-232 | every kept argument is the classification of some piece |
| Arguments.NoCommaOnePiece | jessc.php:213 | argument text without a comma is one piece, the text trimmed |
| Arguments.ParseNoArguments | jessc.php:212-234 | `jess.f()` has no argument at all |
| Arguments.ParseQuotedName | jessc.php:212-234 | `jess.f('name')` with a comma-free name has exactly the one string argument `name` |
| Arguments.ParseFunctionArguments | jessc.php:212-235 | the parsed arguments are the classification of the splitter's pieces, and never more than the pieces |
| Arguments.ClassifyAll | jessc.php:215-232 | the `foreach` appends the classification of each piece, in order |
| Scanner.CloseAt | jessc.php:145 | the lazy `(.*?)\);`: the first `);` from the given position, or none |
| Scanner.MatchAt | jessc.php:145 | a match at a position runs at least eight characters, and its full call text is the input from that position to the match's end |
| Scanner.Scan | jessc.php:145 | the matches found do not overlap: at most one per eight characters, each at least eight long |
| Scanner.MatchAtSound | jessc.php:145 | a match found at a position has the pattern's shape: caseless `jess`, spaces, `.`, spaces, name characters, `(`, and arguments up to the first `);` |
| Scanner.MatchAtComplete | jessc.php:145 | whatever the pattern describes at a position is exactly what the scanner returns there |
| Scanner.ScanEmpty | jessc.php:145 | no call is found exactly when the pattern matches at no position |
| Scanner.ScanSound | jessc.php:145 | every call found is a match of the pattern in the text |
| Scanner.ScanFull | jessc.php:145 | every full call text is at least eight characters long and occurs in the text |
| Scanner.NoJessNoCalls | jessc.php:145 | text without `jess` in any letter case holds no call |
| Compiler.Message | jessc.php:99 | every exception message starts with `JessCompiler Error: `, and names the file where it should |
| Compiler.Cast | jessc.php:107 | `(array)`: a string becomes the one-element array holding it, an array stays as it is |
| Compiler.Dirs | jessc.php:326 | `foreach` over the search path: its entries, and nothing for the initial string |
| Compiler.Dirname | jessc.php:102 | `pathinfo` dirname: trailing slashes do not count; `/` when only slashes remain, `.` when no slash is left, otherwise the path up to the last slash, without the slashes before it, and `/` when nothing precedes them |
| Compiler.DirnameTrailingSlash | jessc.php:102 | a trailing slash does not change the dirname |
| Compiler.DirnameNoSlash | jessc.php:102 | a bare file name lies in `.` |
| Compiler.DirnameOfChild | jessc.php:102 | the dirname of `dir/name` is `dir`, for a `dir` that does not end in a slash |
| Compiler.DirnameTopLevel | jessc.php:102 | a name right under the root lies in `/` |
| Compiler.SearchPath | jessc.php:107-108 | during `compileFile` the search path is the old one cast to an array, then the file's directory and `/` |
| Compiler.WithExtension | jessc.php:319-322 | the name looked for always contains `.jess`, and differs from the given name exactly when the name lacks `.jess`, which is then appended |
| Compiler.ExtensionOptional | jessc.php:319-322 | `require('x')` and `require('x.jess')` look for the same file |
| Compiler.FirstDir | jessc.php:326-333 | the directory used is the first holding the file; there is none exactly when no directory holds it |
| Compiler.ReplaceKeeps | jessc.php:330 | the replacement of the call leaves the text alone when the search is empty, absent, or replaced by itself |
| Compiler.HandlerCaseless | jessc.php:154 | `method_exists` finds the handler whatever the letter case of the call's name, and only for a seven-letter name |
| Compiler.RequireSucceedsOnlyIf | jessc.php:309-338 | `require` succeeds only with exactly one string argument naming a file that some search directory holds, within the nesting bound |
| Compiler.CompileNoCalls | jessc.php:144-165 | text in which no call is found comes back unchanged |
| Compiler.CompileWithoutJess | jessc.php:144-165 | text without `jess` comes back unchanged |
| Compiler.UnknownCallsKept | jessc.php:147-162 | calls whose name has no `js_` method leave the text as it is |
| Compiler.CompileUnknownOnly | jessc.php:144-165 | text whose every call names an unknown directive comes back unchanged |
| Compiler.RequireErrorOrder | jessc.php:309-315 | no argument, then a first argument that is not a string whatever follows, then more than one argument |
| Compiler.RequireFirstDirWins | jessc.php:324-333 | with one string argument, every occurrence of the call is replaced by the file from the first directory holding it, compiled |
| Compiler.RequireMissing | jessc.php:336-338 | when no directory holds the file, `require` fails naming the file with its extension |
| Compiler.RequireWithoutSearchPath | jessc.php:326-338 | with the search path still the initial string, `compile` on its own can require nothing |
| Compiler.CompileMoreFuel | jessc.php:328 | the nesting bound only cuts a compile short: any other result stays the same with a larger bound |
| Compiler.FoldMoreFuel | jessc.php:147-162 | the same for the loop over the calls |
| Compiler.RequireMoreFuel | jessc.php:326-333 | the same for one `require` |
| Compiler.RequireIsHandler | jessc.php:154 | `require` names the one handler |
| Compiler.ScanRequireA | jessc.php:145 | in `jess.require('a');` the scanner finds one call: the name `require`, the argument text `'a'`, the whole text |
| Compiler.RequireInlined | jessc.php:296-298 | `jess.require('a');` compiles to the contents of `a.jess` from the search path, when that file holds no directive |
| Compiler.Decide | jessc.php:47-73 | null exactly for a value that is neither a string nor a record with a root; a string or a forced record or one without files is rebuilt from its root; a record is kept exactly when no recorded file is missing or newer |
| Compiler.RebuiltIsKept | jessc.php:75-87 | a freshly rebuilt record fed back against the same files is handed back unchanged |
| Compiler.RootChangedRebuilds | jessc.php:59-66 | once the root is touched or removed, the record is rebuilt from the same root |
| Compiler.JessCompiler.constructor | jessc.php:16-22 | the search path starts as the string `''` and no file is recorded |
| Compiler.JessCompiler.Compile | jessc.php:131-135 | `compile` is the directive pass with the current search path |
| Compiler.JessCompiler.CompileFunctions | jessc.php:144-165 | the loop over the calls found in the original text equals the fold of the handlers over the current text; an exception ends it |
| Compiler.JessCompiler.CachedCompile | jessc.php:47-88 | returns null, the input itself, or a record of root, compiled text, parsed files and `now`, as the decision says; a failing compile propagates its error |
| Compiler.JessCompiler.AddParsedFile | jessc.php:273-275 | the file is recorded with its modification time, and nothing else changes |
| Compiler.JessCompiler.CompileFile | jessc.php:97-122 | a missing file fails; otherwise the file compiles against the extended search path, the parsed files are exactly the root, and the search path is back as before on success |
| Compiler.JessJsObject.Require | jessc.php:308-341 | the handler's checks, search with `break` and replacement equal the `require` specification |
| AsWritten.Placeholder | jessc.php:197 | a match is at least five characters long: two braces, a digit, two braces; which match is found, with its text and number, is the contract of `AsWritten.PlaceholderLeftmost` |
| AsWritten.PlaceholderLeftmost | jessc.php:197 | `preg_match('/{{(\d+)}}/')` finds the leftmost `{{digits}}` at or after the position, with its text and the value of its digits, and finds none exactly when no position holds one |
| AsWritten.Round | jessc.php:185-188 | one round of the `foreach` appends the matches to the table, in order |
| AsWritten.Protect | jessc.php:183-192 | when the hiding loop ends, no innermost group is left and the table only grew |
| AsWritten.Restore | jessc.php:197-199 | when the restoring loop ends, no placeholder text is left; a piece without one is returned as it is |
| AsWritten.RestoreAll | jessc.php:196-200 | every piece is restored by the restoring loop, in order |
| AsWritten.Explode | jessc.php:176-203 | when `__exploder` as written returns, it returns at least one piece and no piece holds placeholder text |
| AsWritten.PlaceholderWrapped | jessc.php:197 | in `(`…`({{1}})`…`)` the first placeholder found is `{{1}}` |
| AsWritten.ReplaceWrapped | jessc.php:198 | putting back group 1 `({{1}})` for `{{1}}` wraps the text in one more pair of parentheses |
| AsWritten.RestoreWrappedDiverges | jessc.php:197-199 | on such a text the restoring loop runs out of any bound |
| AsWritten.ProtectLiteral | jessc.php:183-192 | the argument `({{1}})` is hidden whole, as the text `{{1}}` |
| AsWritten.LiteralPlaceholderDiverges | jessc.php:181-200 | `__exploder('({{1}})')` as written never returns |
| AsWritten.LiteralPlaceholderKept | jessc.php:176-203 | the model's splitter returns `({{1}})` as one unchanged piece |
| AsWritten.QuotedPlaceholderDropped | jessc.php:193-200 | `__exploder("'{{1}}'")` as written returns the one piece `''`: the argument's own `{{1}}` is put back as the missing group 1, which reads as nothing |
| AsWritten.QuotedPlaceholderKept | jessc.php:176-203 | the model's splitter returns `'{{1}}'` as one unchanged piece |

## Left out

- File output: the `$outFname` branch of `compileFile` (jessc.php:117-119) writes through `file_put_contents`; the model returns the compiled text.
- Reading the environment: `realpath` is the identity, `is_readable` and `file_exists` both mean "a key of the file map", and `time()` is the parameter `now`.
- `json_decode` is a foreign call: an object argument keeps its raw text.
- The PCRE engine: only the three fixed patterns the compiler uses (jessc.php:145, 179, 197) are modelled, as hand-written scanners. `\s` is ASCII whitespace.
- PHP's warnings on an empty string's offset (jessc.php:245, 255): an empty piece is neither a string nor an object.
- Require cycles: the unbounded recursion of a require cycle is cut off by `fuel` with `NestingTooDeep`. PHP instead runs out of stack. That error's message is the model's own.
- Compiler.JessCompiler.AddParsedFile: requires the file to be in the map; `filemtime` on a missing file is a PHP warning that is not modelled.
- Compiler.Dirname: the Unix form of `pathinfo`'s dirname; Windows drive letters and backslashes are not modelled. The empty path has no dirname entry in PHP and reads as `''` here.
- The getter `allParsedFiles()` (jessc.php:282-284) is read as the field itself.
- The order in which `cachedCompile` visits the recorded files is arbitrary in the model. The outcome does not depend on it.
- Exploding.Explode: the model uses the intended splitter on every argument text, including texts that already hold `{{digits}}`. On those the source drops text (`'{{1}}'` becomes `''`, so `jess.require('{{1}}');` looks for `.jess`), duplicates it (`(a){{1}}` becomes `(a)(a)`), or never returns (`({{1}})`); the model returns the text as written. `AsWritten` models that behaviour.
- jess.js, the runtime wrapper the compiled output is meant for, is not part of this model.

## Findings

| source | as written | input that shows it | evidently intended | confidence | as-written member | corrected member |
|---|---|---|---|---|---|---|
| jessc.php:181-200 | hidden groups become the plain text `{{n}}`, so the restoring loop takes text of the argument itself for a placeholder; restoring `{{1}}` to `({{1}})` brings `{{1}}` back, and the text grows without end | any argument text holding `{{digits}}`; here `({{1}})`, as in `jess.f(({{1}}));` | `__exploder` returns the one piece `({{1}})` | not executed | AsWritten.LiteralPlaceholderDiverges | Exploding.Explode |
| jessc.php:193-200 | a `{{n}}` written in the argument is replaced by hidden group `n`; with no such group `$r[n - 1]` is null and the placeholder is put back as nothing | the argument text `'{{1}}'`, as in `jess.require('{{1}}');` | `__exploder` returns the one piece `'{{1}}'` | not executed | AsWritten.QuotedPlaceholderDropped | Exploding.Explode |
