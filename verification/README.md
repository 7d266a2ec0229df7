# pode: top-level await, history completion and CLI bindings

pode is a Node.js shell built on the standard `repl` module. This project
models its three pieces of string logic as pure Dafny functions and proves
properties about them:

- **Top-level `await`.** A line such as `x = await fetch(u)` or `await
  sleep(10)` is recognised by a regular expression. It is wrapped in an async
  function expression, rewritten by the async-to-gen transformer and run.
  Any other line goes to the shell's previous evaluator. There are two
  generations:
  - `index.js`: an identifier binder only, with recoverable syntax errors;
  - the older `repl.js`: an optional `let`/`var`/`const` and any text before
    the first `=` as the binder.
- **History word completion.** `index.js` keeps an index of the words in the
  shell history: runs of two or more word characters, sorted, once each. When
  the REPL's own completer has nothing fitting, the completer offers the
  indexed words that start with the last word of the line. The index is
  refreshed after every successful evaluation.
- **CLI bindings.** `cli.js` turns arguments such as `lodash.map` or
  `babel-register` into the bindings object its reduce builds
  (cli.js:48-59), meant to be copied into the REPL context.

Each regular expression is written twice. One version is a deterministic
function computing the captures. The other is a declarative predicate that
reads the pattern literally as a set of ways to cut the line. Lemmas connect
the two:
- for `index.js` the cut is unique;
- for `repl.js` the captured cut is the first one in the backtracking
  engine's order.

Modules:

| module | file | models |
|---|---|---|
| `Wrappers` | wrappers.dfy | `Option`, `Result`, a JavaScript error as name and message |
| `Chars` | chars.dfy | the character classes `\s`, `\w` and the identifier classes |
| `Strings` | strings.dfy | runs, `trim`, `includes`, `split` on a character class |
| `StringOrder` | string_order.dfy | the sort order, insertion sort and sortedness facts |
| `AwaitMatch` | await_match.dfy | the `index.js` await pattern |
| `LegacyAwaitMatch` | legacy_await_match.dfy | the `repl.js` await pattern |
| `AwaitWrap` | await_wrap.dfy | `wrap`, `wrapper` and `isRecoverableError` |
| `AwaitEval` | await_eval.dfy | both await evaluators |
| `HistoryWords` | history_words.dfy | `wordsFromHistory` |
| `HistoryCompleter` | completer.dfy | the completer wrapper and the `refreshWords` hook |
| `CliBindings` | cli_bindings.dfy | `makeVariableFriendly`, argument parsing and the bindings |

Behaviour worth knowing:

- **Declarations in `index.js`.** `let x = await foo(` is not matched by
  `index.js`, because its pattern (index.js:70) admits no declaration keyword. The line
  goes to the previous evaluator and is never reported as a recoverable
  construction error (`AwaitEval.EvalDelegatesDeclaration`). Only the older
  `repl.js` pattern accepts the keyword, and there the transformer's error
  escapes as an exception (`AwaitEval.LegacyEvalThrowsOnIncomplete`).
- **Fallback span.** When the completer falls back to the word index, it hands
  back the original completer's `completeOn`, not the last word of the line
  (index.js:31-36).
- **When the index is refreshed.** A refresh is queued only when the
  evaluator's callback gets a `null` or `undefined` error (index.js:48-50). A
  failed evaluation queues none, whether or not the error is recoverable.

## Model

| member | source | states |
|---|---|---|
| AwaitMatch.Classify | index.js:70 | On a match, group 2 starts with `await` and is a suffix of the line, and a captured binder is an identifier `[a-zA-Z_$][0-9a-zA-Z_$]*` |
| AwaitMatch.GroupSplitUnique | index.js:70 | There is only one way for the pattern to match with group 1: each run is forced to be maximal |
| AwaitMatch.GroupSplitDecides | index.js:62-70 | Whenever the pattern can match with `<ident> \s* = \s* await…`, that identifier is the binder and the rest from `await` is the expression |
| AwaitMatch.BareSplitDecides | index.js:70 | When no binder is possible, a line that is white space then `await…` matches with no binder, and the expression runs from `await` to the end |
| AwaitMatch.ClassifySound | index.js:70 | Every result of the classifier is a result of the pattern read literally, and the classifier gives no match exactly when neither alternative can match |
| AwaitMatch.ClassifyBinds | index.js:70 | `x = await foo()` binds `x` to `await foo()` |
| AwaitMatch.ClassifyBare | index.js:70 | `  await foo()` matches with no binder, and leading white space is skipped |
| AwaitMatch.ClassifyAwaitPrefix | index.js:70 | No word boundary is checked: `awaitable = 3` matches with no binder and the whole line as expression |
| AwaitMatch.ClassifyRejectsEquality | index.js:70 | `a == await b` does not match at all |
| AwaitMatch.ClassifyRejectsDeclaration | index.js:70 | No line starting `let x = ` matches: the declaration keyword is not admitted |
| AwaitMatch.ClassifyRejectsPath | index.js:70 | `a.b = await f()` does not match: the binder must be one identifier |
| LegacyAwaitMatch.FirstEq | repl.js:10 | Group 1 `[^=]+` can only end at the first `=` of the line |
| LegacyAwaitMatch.KeywordEnd | repl.js:10 | The group `(?:let\|var\|const)\s` matches at a position exactly when one of the three keywords and a white-space character start there |
| LegacyAwaitMatch.Chosen | repl.js:10 | The cut the engine takes always splits at the first `=` |
| LegacyAwaitMatch.Classify | repl.js:10 | On a match, group 2 starts with `await` and is a suffix of the line, and a binder is non-empty, free of `=`, and ends right before the first `=` |
| LegacyAwaitMatch.ValidCutForced | repl.js:10 | Every way the first alternative can match splits at the first `=` and starts `await` after the white space that follows it |
| LegacyAwaitMatch.CutBinder | repl.js:10 | Whatever cut the first alternative matches by, group 1 is non-empty, free of `=` and ends at the first `=`, and group 2 starts with `await` |
| LegacyAwaitMatch.ChosenValid | repl.js:10 | The chosen cut is a way the first alternative matches |
| LegacyAwaitMatch.ChosenFirst | repl.js:10 | No cut is chosen exactly when the first alternative cannot match, and otherwise every admitted cut is the chosen one or is tried after it |
| LegacyAwaitMatch.ChosenBeatsValid | repl.js:10 | Any admitted cut is the chosen one or comes later in the greedy, keyword-first backtracking order |
| LegacyAwaitMatch.ClassifySound | repl.js:10 | A binder comes from the first admitted cut; no binder means the first alternative cannot match and `^\s*(await…)` did; no match means neither alternative can |
| LegacyAwaitMatch.ClassifyBindsAfterKeyword | repl.js:10 | When some non-white-space text precedes the first `=` after the leading white space and any keyword, the binder is the text before the first `=`, without leading white space or a `let`/`var`/`const` keyword and its white space |
| LegacyAwaitMatch.ClassifyDeclaration | repl.js:10 | `let x = await…` binds `"x "`, keeping the space before `=` |
| LegacyAwaitMatch.ClassifyPath | repl.js:10 | `a.b = await f()` binds the property path `"a.b "` |
| LegacyAwaitMatch.ClassifyEquality | repl.js:10 | `a == await b` does not match: its first `=` is followed by another `=`, not by `await` |
| LegacyAwaitMatch.ClassifyAwaitedEquality | repl.js:10 | `await a == await b` matches only through the second alternative, with no binder and the whole line as expression |
| LegacyAwaitMatch.ClassifyKeywordOnly | repl.js:10 | `let  = await x` makes the engine backtrack the second `\s*` and binds a single space |
| LegacyAwaitMatch.KeywordIsWholeIdentifier | repl.js:10 | A keyword plus white space at the start of an identifier run means the run is that keyword |
| LegacyAwaitMatch.GenerationsAgreeOnBinder | repl.js:10 | Where index.js binds an identifier that is not a keyword, repl.js binds that identifier plus the white space before `=`, with the same expression |
| AwaitWrap.UnwrapTemplate | index.js:73-76 | The template can be read back: it embeds the code, and it ends in `global.<binder> = result` exactly when a binder is given, otherwise in `return result` |
| AwaitWrap.Wrap | index.js:72-79 | The text handed back after transformation has no leading or trailing white space |
| AwaitWrap.TemplateLayout | repl.js:13-16 | The source handed to the transformer starts with the code exactly as given, and ends with `global.<binder> = result` exactly when the binder is truthy, otherwise with `return result` |
| AwaitWrap.WrapIsTrimmedWrapper | repl.js:12-18 | Given the same transformer, the index.js `wrap` is the repl.js `wrapper` applied to the trimmed code, with the output trimmed |
| AwaitWrap.WrapperTemplateCollides | repl.js:12-18 | The repl.js template cannot be read back: a binder that contains `);`, a newline and `global.` gives the same source, and so the same transformer result, as a longer expression with a shorter binder |
| AwaitWrap.RecoverableExamples | index.js:81-86 | Examples, not a full characterisation: messages starting with `Unexpected end of input` or `Unexpected token` on a `SyntaxError` are recoverable; the test is anchored at the start, so `Invalid: Unexpected token` is not; no error whose name is not `SyntaxError` is |
| AwaitEval.Eval | index.js:91-108 | The index.js evaluator never throws before it hands the code to `vm.runInContext`: it delegates, reports the construction error to the callback, or runs the code |
| AwaitEval.EvalDelegatesExactlyUnmatched | index.js:93-106 | A command goes to the original evaluator exactly when the pattern cannot match, and with cmd, context, filename and callback unchanged |
| AwaitEval.EvalBinds | index.js:93-103 | A line with a binder runs the transformed template around the trimmed expression, which assigns the binder; a construction failure is reported instead |
| AwaitEval.EvalReturns | index.js:93-103 | A line without a binder runs the transformed template that returns the value; a construction failure is reported instead |
| AwaitEval.EvalReportsBuildFailure | index.js:95-100 | When `wrap` fails, the callback gets the error, as `Recoverable` exactly when it is a `SyntaxError` about an unexpected end of input or token, and no code runs |
| AwaitEval.EvalDelegatesDeclaration | index.js:70 | Every line starting `let x = `, such as the incomplete `let x = await foo(`, goes to the original evaluator unchanged and never reaches this evaluator's recoverable-error report |
| AwaitEval.LegacyEval | repl.js:20-29 | The repl.js evaluator never reports an error to the callback itself: a transformer failure escapes as an exception, and only a delegated line can come back recoverable, from the previous evaluator |
| AwaitEval.LegacyEvalDelegatesExactlyUnmatched | repl.js:20-28 | A command goes to the previous evaluator exactly when neither alternative of the older pattern matches, with every argument unchanged |
| AwaitEval.LegacyEvalThrowsOnIncomplete | repl.js:12-24 | `let x = await foo(` is wrapped with binder `"x "`, and a transformer error escapes as an exception |
| HistoryWords.MatchesFromExact | index.js:11 | The global scan for `\w{2,}`, started at a run boundary, never resumes inside a run and finds exactly the maximal runs of two or more word characters |
| HistoryWords.MatchesExact | index.js:11 | `line.match(wordRe)` yields exactly the maximal runs of two or more word characters of the line |
| HistoryWords.HistoryMatches | index.js:15-16 | The flattened matches hold exactly the words matched in some history line |
| HistoryWords.Dedup | index.js:16 | The `Set` spread keeps each value once and loses none |
| HistoryWords.WordsFromHistory | index.js:14-18 | The index is strictly sorted, so free of duplicates, and holds exactly the maximal word runs of length two or more in the history |
| HistoryWords.WordIndexCanonical | index.js:14-18 | Histories with the same set of lines give the same index, whatever the order or repetition of the lines |
| HistoryWords.SameWordsSameIndex | index.js:14-18 | Histories holding the same words have the same index |
| HistoryWords.WordIndexIdempotent | index.js:14-18 | A history repeated twice gives the same index as the history itself |
| HistoryWords.LineWithoutWordsAddsNothing | index.js:11-16 | A line with no run of two word characters adds nothing to the index |
| StringOrder.LessTransitive | index.js:17 | The sort order is transitive |
| StringOrder.LessTotal | index.js:17 | Any two different strings are ordered |
| StringOrder.Sort | index.js:17 | Sorting yields a sorted permutation of its input |
| StringOrder.StrictlySortedUnique | index.js:16-17 | Two strictly sorted sequences with the same elements are equal |
| HistoryCompleter.LastWordOfLine | index.js:29 | The last piece of the line split at non-word characters is a suffix of the line, made of word characters, and the character before it is not a word character |
| HistoryCompleter.LastWordUnique | index.js:29 | Those three properties determine the last word: it is the longest trailing run of word characters |
| HistoryCompleter.Filter | index.js:32 | The filter keeps exactly the words that start with the prefix |
| HistoryCompleter.FilterSorted | index.js:32 | Filtering keeps the order of a strictly sorted word list |
| HistoryCompleter.Complete | index.js:29-37 | The span handed back is always the original `completeOn`. Original completions that are non-empty and whose span contains the last word pass through unchanged. Otherwise the completions are exactly the indexed words starting with the last word, kept in the index's sorted order |
| HistoryCompleter.AsWrittenLosesError | index.js:24-27 | An error reported without a result is replaced by a `TypeError` as written, and rethrown when checked first |
| HistoryCompleter.CheckedAgreesWhenAnswered | index.js:24-27 | Checking the error first changes nothing when the original completer passes a result: the callback as written and the corrected one give the same outcome |
| HistoryCompleter.CompletesFromHistory | index.js:14-37 | With a refreshed index and no original completions, the answer is the sorted list of history words that start with the last word |
| HistoryCompleter.EmptyLastWordOffersAll | index.js:29-32 | When the original completer found nothing, a line ending in a non-word character is offered every indexed word |
| HistoryCompleter.CompletesApp | index.js:29-37 | With `apple`, `application` and `const` indexed and nothing found by the original completer, `app` completes to `apple` and `application` |
| HistoryCompleter.InstallThenRefresh | index.js:10-20 | The refresh queued at installation, once it runs, leaves the index sorted, free of duplicates and holding exactly the history's words, with nothing left queued |
| HistoryCompleter.RunRefresh | index.js:14-20 | A queued refresh leaves the index sorted and holding exactly the words of the history at the time it runs |
| HistoryCompleter.SuccessfulEvalRefreshes | index.js:47-53 | After an evaluation whose error is `null` or `undefined`, every argument reaches the shell's callback unchanged, and the queued refresh, once it runs, leaves exactly the history's words, sorted, with the queue as before |
| HistoryCompleter.FailedEvalQueuesNothing | index.js:47-53 | A failed evaluation leaves the index state as it was |
| CliBindings.MakeVariableFriendly | cli.js:24 | The length is kept, `-`, `.` and `/` become `_`, every other character stays, and none of the three is left |
| CliBindings.MakeVariableFriendlyFixedPoints | cli.js:24 | The replacement is idempotent, and a name is left unchanged exactly when it holds none of the three characters |
| CliBindings.MakeVariableFriendlyAppend | cli.js:24 | The replacement works character by character: it distributes over concatenation |
| CliBindings.FriendlyJoin | cli.js:24 | Names joined by `-`, `.` or `/` come out joined by `_`, so `babel-register` becomes `babel_register` |
| CliBindings.ParseSpec | cli.js:29-35 | An argument without a dot requires the whole argument with no member. With a dot, the module is the text before the first dot and the member the text up to the next dot or the end |
| CliBindings.SplitsAtUnique | cli.js:29-32 | An argument splits into module and member in only one way |
| CliBindings.ParseSpecText | cli.js:27-38 | An argument written from a module and a member without dots parses back to them |
| CliBindings.ParseSpecDropsDeeperPath | cli.js:30-32 | Everything from a second dot on is dropped |
| CliBindings.ParseSpecs | cli.js:27-38 | One spec per argument, in argument order |
| CliBindings.Bindings | cli.js:48-59 | A key is bound exactly when some spec writes it |
| CliBindings.BindingsLastWriter | cli.js:48-59 | A key holds what the last spec writing it put there |
| CliBindings.Load | cli.js:40-47 | With a loader that always succeeds, each spec is paired with the module loaded for its name, in order |
| CliBindings.LoadAll | cli.js:40-47 | No bindings are built exactly when some module can be loaded by neither `require` nor `trymodule`; otherwise each spec is paired with its module, in order |
| CliBindings.LoadAllSucceeds | cli.js:40-47 | When every module loads, the loads are exactly those `Load` pairs up |
| CliBindings.LastArgumentWins | cli.js:27-59 | The last argument mentioning a name decides what it is bound to |
| CliBindings.BoundNames | cli.js:27-59 | A name is bound exactly when some argument writes it |
| CliBindings.MemberArgument | cli.js:29-52 | `module.member` with a non-empty member binds that member of the module under its own name |
| CliBindings.WholeArgument | cli.js:33-54 | A dot-free argument binds the whole module under its variable-friendly name |
| CliBindings.EmptyMemberBindsWhole | cli.js:29-54 | `lodash.` binds exactly what `lodash` does: an empty member is falsy |

## Left out

- The async-to-gen transformation is a foreign parser. It is a function parameter that returns code or an error name and message. Both generations take the same parameter, so the options that index.js passes and repl.js does not (`fastSkip: false, includeHelper: false`, index.js:77-78) are not modelled. The helper it injects into the context (index.js:88-89) is left out as well.
- `vm.runInContext`, the promise it returns, and the callback that settles it are asynchronous execution. The evaluators stop at a `Run` step naming the code, context and callback.
- The REPL's original evaluator and completer are collaborators. The evaluator appears as a `Delegate` step. The completer's answer is an input of the completer callback.
- StringOrder.Less: `localeCompare` is replaced by lexicographic code-point order, which is how Dafny compares characters. Code-point and UTF-16 code-unit order agree on the indexed words, which are ASCII `\w` runs. Locale collation is not modelled, so the index order agrees with the shell's only where the two orders agree.
- HistoryCompleter.RunRefresh: `setImmediate` is modelled only as a count of queued refreshes. The model does not say when a queued refresh runs relative to other input.
- How the history lines come to be, and how they are persisted, is not modelled. The history is a parameter.
- AwaitEval.Eval: `code = wrap(match[2], match[1])` (index.js:97) assigns a variable that is never declared. index.js is not in strict mode, so every matched line also writes the wrapped source to the Node global `code`. The model passes the wrapped source straight to the `Run` step and does not model that global.
- `patchRepl` (index.js:111-148) is plumbing: module patching, mkdirp, repl.history, reify and file paths.
- cli.js I/O is not modelled: meow, chalk, `console.log`, `env-paths`, `repl.start` and `Object.assign` into the context. Module loading with `require` and the `trymodule` install fallback is a function parameter.
- cli.js imports a `patch` export (cli.js:9) that index.js does not define (index.js:150-154). As written, `patch({paths})` at cli.js:61 therefore throws a `TypeError` inside the `.then`, so `repl.start()` and `Object.assign` (cli.js:62-64) never run and the bindings never reach a REPL. The model stops at the bindings object the reduce builds (cli.js:48-59).
- CliBindings.Load: takes a loader that always yields a module. A module that neither `require` nor `trymodule` can load makes `Promise.all` (cli.js:40-47) reject, and the reduce never runs; that case is modelled by `CliBindings.LoadAll`, and `CliBindings.BindingsForInputs` covers only the case where every module loads.
- repl.js `start()` (repl.js:32-40) starts a REPL and a history file, and is not modelled.
- Strings are sequences of Dafny characters, not UTF-16 code units. A character outside the Basic Multilingual Plane is one element here but two in JavaScript. `\s` and `trim` use the ECMAScript white-space and line-terminator set, without U+180E.
- CliBindings.Bindings: the bindings object is modelled as a map, so the key `__proto__` is bound like any other. In JavaScript, `b['__proto__'] = …` (cli.js:50, cli.js:54) runs the `Object.prototype` setter instead of creating an own property. `pode lodash.__proto__` or `pode __proto__` therefore binds nothing through `Object.assign` (cli.js:64), while the model binds `__proto__`.

## Findings

| source | as written | input that shows it | evidently intended | confidence | as-written member | corrected member |
|---|---|---|---|---|---|---|
| index.js:24-27 | The callback's parameter list `(e, [completions, completeOn])` destructures its second argument before `e` is tested | the original completer calls the callback with an error and no second argument | the error is rethrown by `throw e` | medium; not executed | HistoryCompleter.CompleteAsWritten, with HistoryCompleter.AsWrittenLosesError | HistoryCompleter.CompleteChecked |
