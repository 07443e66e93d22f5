# wlessc watch-and-rebuild loop, modelled in Dafny

`wl.js` is a command-line tool that compiles a LESS (or plain CSS) file,
optionally runs it through PostCSS with Autoprefixer and cssnano, writes
the result, and, unless started with `--once`, watches the input and every
file LESS reported as imported, rebuilding on change. This project models
the self-contained logic of that script:

- `CommandLine`: `cmdinput` and `cmdswitch`, pure functions of argv, with
  JavaScript's `false` / `true` / string / `undefined` results and truthiness.
- `Settings`: the start-up configuration (lines 134-151), including the
  split of `--prefix-browsers` at commas and the `--output` fallback.
- `OutputName`: the default output name derived from the input's final
  path component (lines 141-148), with the case-insensitive test and the
  case-sensitive replacement kept apart.
- `PostProcess`: the choice of the PostCSS pipeline in `prefix`.
- `Clock`: `pad` and the `timestamp` layout, given the clock's fields.
- `Compiler`: the branching of `compile` (read error, LESS by extension,
  plain CSS passed through without an import list).
- `Watches`: `updateWatches` as a class holding the `watches` dictionary
  (a map plus its key insertion order, the order `for...in` visits), with
  handle creation and the log of closed handles; each of its two loops is
  its own method with loop invariants, and the specification functions
  `Select` and `Fresh` carry the set-level lemmas.
- `Build`: the module-level state (`watches`, `compileCount`, the output
  file) as a class whose `OnChange` is one run of `onchange`, and the
  start-up that runs it once.

The script has no build serialiser and no pending-rerun state. Each watch
has its own 500 ms timer. The root input is watched separately and is never
an entry of the watch map. A failed build leaves the watch map and the
output untouched. The output is written with a plain `writeFileSync`.

## Model

| member | source | states |
|---|---|---|
| `Seqs.IndexOf` | wl.js:26 | `indexOf`: -1 exactly when the element is absent, otherwise the index of its first occurrence |
| `CommandLine.CmdInput` | wl.js:17-23 | the third argv word when there is one and it does not start with `--`, otherwise "style.less"; never a switch |
| `CommandLine.SwitchBeforeInputHidesIt` | wl.js:18 | a switch in third position makes the input "style.less", so a later file-name word is not taken as the input |
| `CommandLine.Switch` | wl.js:25-33 | absent switch gives `false`; present without `getValue` gives `true`; with `getValue` the word after the first occurrence, or `undefined` when that occurrence is last |
| `CommandLine.SwitchTakesWordAfterFirst` | wl.js:26-29 | any first occurrence followed by a word yields exactly that word |
| `CommandLine.SwitchWithoutWord` | wl.js:25-33 | a switch read with `getValue` whose first occurrence is last or followed by an empty word is falsy |
| `CommandLine.Truthy` | wl.js:134-150 | JavaScript truthiness of a switch result, as the `!`, `if (output)` and `if (targetBrowsers)` tests read it (and `!once` at wl.js:178): only `true` or a word can be truthy; specified by `SwitchTruthiness` and `SwitchWithoutWord` |
| `CommandLine.SwitchTruthiness` | wl.js:141 | a switch result is truthy exactly when the switch is present and, when a value is wanted, a non-empty word follows it |
| `OutputName.BaseName` | wl.js:144 | `path.basename(name, ".less")`: the suffix is dropped exactly when the name ends with it and is not the suffix alone |
| `OutputName.DefaultOutputName` | wl.js:144-147 | the derived output name: four characters longer than the input's name with ".less" stripped; specified by `DefaultOutputFromStem`, `DefaultOutputIgnoresGuard` and `DefaultOutputIsNotInput` |
| `OutputName.ReplaceDoubleCss` | wl.js:147 | the replace of ".css.css" by ".min.css": keeps the length, and keeps a ".css" ending; its effect on the output name is specified by `DefaultOutputFromStem` |
| `OutputName.DefaultOutputFromStem` | wl.js:144-147 | after dropping ".less", a stem ending in lower-case ".css" gets ".min.css" in place of it; any other stem gets ".css" appended |
| `OutputName.DefaultOutputIgnoresGuard` | wl.js:146-147 | the result equals the case-sensitive replacement alone, so a name matching only case-insensitively ("X.CSS.css") is kept |
| `OutputName.DefaultOutputIsNotInput` | wl.js:144-147 | the default output ends in ".css" and never equals the input's name |
| `OutputName.UpperCaseLessKept` | wl.js:144 | "A.LESS" gives "A.LESS.css": the ".less" strip is case-sensitive |
| `PostProcess.Pipeline` | wl.js:95-102 | Autoprefixer first; cssnano (both options off) after it exactly when compacting; nothing else |
| `PostProcess.PrefixBeforeMinify` | wl.js:95-102 | no cssnano entry precedes an Autoprefixer entry |
| `PostProcess.Prefix` | wl.js:92-112 | prefixing off: the CSS comes back unchanged and cannot fail, whatever `compact` is; on: the PostCSS outcome of `Pipeline` |
| `Clock.DecimalString` | wl.js:115 | `toString` of a number: digits only, one character exactly below 10, and a leading "0" only for the number 0 |
| `Clock.DecimalRoundTrip` | wl.js:115 | reading back the decimal string gives the number |
| `Clock.Pad` | wl.js:114-116 | `pad`: a string of digits, never shorter than two characters; specified by `PadTwoDigits` |
| `Clock.PadTwoDigits` | wl.js:114-116 | `pad` reads back as its number, is two characters below 100, and leaves numbers from 10 on as they are |
| `Clock.Timestamp` | wl.js:118-128 | `timestamp`: at least 16 characters; specified by `TimestampLayout` |
| `Clock.TimestampLayout` | wl.js:118-128 | for a four-digit year: 19 characters, separators at 4, 7, 10, 13, 16, and every field reads back (month as `getMonth() + 1`) |
| `Compiler.ExtName` | wl.js:39 | `path.extname`: empty exactly when the name is empty, is "..", or has no dot after its first character; otherwise a suffix of the name that starts with its only dot and is shorter than the name |
| `Compiler.IsLessFile` | wl.js:39 | the LESS test on `extname(file).toLowerCase()`: when it holds, the extension has 5 characters and the name at least 6; specified by `LessFileByName` |
| `Compiler.LessFileByName` | wl.js:39 | a file is compiled as LESS exactly when its name ends in ".less" in any case with at least one character before it |
| `Compiler.Compile` | wl.js:35-59 | read errors pass through; non-LESS files yield their text with no import list; LESS files yield the render's CSS and imports, or exactly the render's error |
| `Settings.SplitAtCommas` | wl.js:151 | one or more pieces, none containing a comma |
| `Settings.SplitJoinRoundTrip` | wl.js:151 | joining the pieces with commas gives the text back |
| `Settings.TrimStart` | wl.js:151 | drops exactly the leading blanks |
| `Settings.TrimEnd` | wl.js:151 | drops exactly the trailing blanks |
| `Settings.TrimPiece` | wl.js:151 | a piece is cut down to a slice of itself with only blanks dropped around it, none at the outer ends of the whole string; it keeps no blank at an end that touched a comma, and gains no comma |
| `Settings.SplitBrowsers` | wl.js:150-151 | one browser entry per comma-separated piece, each that piece trimmed at the ends that touched a comma |
| `Settings.BrowserEntry` | wl.js:150-151 | no entry contains a comma, and none keeps a blank next to a comma it was split at |
| `Settings.FinalComponent` | wl.js:144 | a suffix of the path with no '/' in it, which is either the whole path or preceded by a '/' |
| `Settings.Configure` | wl.js:134-148 | prefixing and compacting on unless switched off, `--once` read as present/absent, browsers and output taken only from truthy switch values, default output derived from the input's name |
| `Settings.OutputNeedsArgument` | wl.js:139-148 | an `--output` whose first occurrence has no word after it, or an empty word, falls back to the derived name |
| `Watches.SelectMembers` | wl.js:74-80 | a key is removed exactly when it is not imported, and kept exactly when it is |
| `Watches.SelectDistinct` | wl.js:74-80 | removed and kept lists repeat no path |
| `Watches.FreshMembers` | wl.js:82-87 | a path is added exactly when it is imported and was not already a key |
| `Watches.FreshDistinct` | wl.js:82-87 | the added list repeats no path, even when the imports do |
| `Watches.ReconcileExact` | wl.js:71-90 | removed = old keys minus imports, added = imports minus old keys, new keys = imports, all without repeats; a path both watched and imported is in neither list |
| `Watches.ReconcileIdempotent` | wl.js:71-90 | a second reconciliation with the same imports removes nothing, adds nothing and keeps the order |
| `Watches.DropStep` | wl.js:74-80 | one turn of the `for...in` loop on an unimported key: the key is still present, its handle is the one logged as closed, and the entry is gone |
| `Watches.KeepStep` | wl.js:74-80 | one turn of the loop on an imported key leaves the table and the closed log alone |
| `Watches.AddStep` | wl.js:82-87 | one turn of the `forEach` on a new path gives it the next handle id and leaves every other entry alone |
| `Watches.SkipStep` | wl.js:82-87 | one turn of the `forEach` on a path already present changes nothing |
| `Watches.HandlesForDistinct` | wl.js:74-79 | the handles closed in one reconciliation are pairwise different, so each is closed once |
| `Watches.WatchTable.constructor` | wl.js:154 | an empty watch map |
| `Watches.WatchTable.Watch` | wl.js:61-69 | each call hands out a new handle for the path |
| `Watches.WatchTable.CloseUnimported` | wl.js:74-80 | closes and deletes exactly the unimported keys in key order, keeping the other entries and their handles |
| `Watches.WatchTable.WatchImported` | wl.js:82-87 | installs a new handle for each imported path not yet a key, in import order, leaving existing entries alone |
| `Watches.WatchTable.UpdateWatches` | wl.js:71-90 | keys become the imported paths; surviving entries keep their handles; `removed` and `added` as above; the closed log grows by the removed entries' handles; the invariant is kept |
| `Build.PlanBuild` | wl.js:164-187 | write only when compile and prefix both succeed, with the prefixed CSS; reconcile only then, outside `--once`, when an import list exists |
| `Build.PlainInputNeverReconciles` | wl.js:55-57 | a non-LESS input never has watches reconciled |
| `Build.UnprefixedWritesCompiled` | wl.js:109-111 | with prefixing off a successful compile is written exactly as compiled |
| `Build.Session.constructor` | wl.js:154-155 | no watches, count 0, root watched unless `--once` |
| `Build.Session.OnChange` | wl.js:160-192 | on error nothing changes; on success the output is written once and the count rises by exactly one; when reconciling, the keys become the imports, new paths get consecutive handle ids, the closed log grows by the removed entries' handles, and `Done` carries the added and removed lists |
| `Build.Launch` | wl.js:153-201 | no session and no build when the input is missing; otherwise a fresh session and one build whose report is the failure, or `Done` number 1 removing nothing, with the watch map then holding exactly the imports (with handles 0, 1, …) or still empty |

## Left out

- The 500 ms debounce in `watch` (wl.js:61-69): timers and the event loop; `Watch` models only the creation of a handle, and a change notification is a call of `OnChange`.
- Overlapping builds: `onchange` can be re-entered while an earlier run's read (wl.js:36), render (wl.js:40) or PostCSS call (wl.js:104) is pending, and the callbacks of two runs can then interleave; each `OnChange` call is one whole, uninterrupted run.
- `fs.writeFileSync` (wl.js:176) or `fs.watch` (wl.js:62) throwing: writing and creating a watch always succeed here. In the source such a throw aborts the handler part-way and skips the counter. Where it goes depends on how `prefix` calls back. With prefixing on (the default) the handler runs in the promise's fulfilment callback (wl.js:104-105), so the throw becomes an unhandled promise rejection. With `--no-prefix` the callback is synchronous (wl.js:109-110): for a LESS input the `try`/`catch` at wl.js:48-51 catches the throw and reports it through the compile callback a second time; for a plain CSS input nothing catches it.
- `PostProcess.PostCss` yields the prefixed CSS text. In the source, the value handed on at wl.js:104-105 and written at wl.js:176 is PostCSS's result object. Node versions that convert such an object with `String()` write its `css` text, which is what the model writes. Newer Node versions refuse a non-string argument, so every prefixed write throws; that case falls under the `fs.writeFileSync` line above.
- Console output, the time measurement and the error formatting at wl.js:166-170; `Report` carries the build number, the time stamp and the added and removed lists that wl.js:180-187 print, not their formatting as relative paths.
- `path.resolve`, `path.relative`, `path.join`, `path.dirname` and `process.cwd()`: paths are kept as given and the derived output name is on the input's final component, split at the last '/'; normalisation of ".", "..", trailing and Windows separators is not modelled.
- `OutputName.BaseName` follows current Node, which keeps a name equal to the suffix; older Node versions return an empty name for it.
- `less.render`, PostCSS, Autoprefixer and cssnano: their outcomes are parameters; the options passed to `less.render` are not modelled.
- `for...in` visits integer-like keys before others; file paths are assumed not to be integer-like, so key order is insertion order.
- Clock.TimestampLayout: the fixed width is stated only for years 1000-9999 with in-range fields; negative years are not modelled.
