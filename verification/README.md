# ep_webpack bundler core, modelled in Dafny

This project models the core of `ep_webpack`, an Etherpad plugin that bundles
the browser-side code of all other plugins with webpack.

The model covers the bundling steps:

- At start-up it collects the `client_hooks` object of every plugin part.
- It lists each hooked module once, with the function alias removed.
- It writes an entry module that re-exports the listed modules as `f0`, `f1`, ….
- Once the write and the webpack build both succeed, it rewrites every hook to
  point into the bundle, as `ep_webpack/static/js/dist/index:f<k>.<hookName>`.

It also models the CSS discovery analysis:

- It finds every plugin's `aceEditorCSS` provider.
- It runs each provider so that one provider's failure does not affect the
  others.
- It cleans the returned paths.
- It splits them into files to bundle and external references.

Finally, it models the host's hook-path resolver `loadFn`, which turns a hook
path into the module to `require` and the chain of properties to walk.

Layout:

- `wrappers.dfy`: `Option` and `Result`.
- `strings.dfy`: JavaScript `split`/`join` on a separator, decimal printing.
- `sequences.dfy`: `indexOf`, `_.uniq`, `_.flatten`, order-keeping filters.
- `hooks.dfy`: hook maps, the bundler's `split(':')[0]`, and `loadFn`.
- `bundler.dfy`: `bundler.js`.
- `css_bundler.dfy`: `cssBundler.js`.

A `client_hooks` object is a sequence of `(name, path)` pairs. The sequence
order is JavaScript's property order, which for these string keys is
insertion order.

The model makes no I/O calls. Writing the entry module and running webpack
appear only as their outcomes, which are inputs to `GenerateBundle`. A thrown
error becomes a `Failure` value. Loading and calling a CSS provider is foreign
code, so it is a function parameter: `None` stands for a provider that failed
to load or threw.

Where the tests and the code disagree, the model follows the code in
`bundler.js`:

- The test file targets a later API, `buildIndexAndGenerateBundle`, with
  ignored parts and CSS bundling. That API is not in this version of the code.
- The test file expects the dist path `ep_webpack/static/dist/js/index`. The
  code uses `ep_webpack/static/js/dist/index`, which matches the output path
  in `webpack.config.js`.
- The tests also expect an aliased hook to keep its alias. The code drops it,
  as recorded under Findings. The rewrite therefore takes the export naming
  as a parameter (`Bundler.ExportNaming`). `HookNameExport` is the code as
  written: `GenerateBundle` with it is `generateBundle`. `FunctionNameExport`
  is the corrected rewrite that keeps the alias. Every rewrite lemma holds
  for both unless its row names one.

## Model

| member | source | states |
|---|---|---|
| Bundler.GetAllClientHooks | bundler.js:48-55 | the collected maps are exactly the `client_hooks` of the parts that have one; parts without hooks add nothing |
| Bundler.GetAllClientHooksAppend | bundler.js:48-55 | collecting distributes over concatenation of the part list, so the maps keep part order |
| Bundler.HookModulePathsMembership | bundler.js:90-96 | a module path occurs in the flattened, alias-stripped traversal exactly when some hook of some map points into it |
| Bundler.GetListOfFilesToBundle | bundler.js:89-100 | the file list has no duplicates and no entry with a ':'; a path is listed if and only if some hook points into that module |
| Bundler.SingleModuleListedOnce | bundler.js:97-98 | when all hooks point into one module, however many, the list is exactly that module |
| Bundler.FilesInFirstSeenOrder | bundler.js:98 | files appear in the order their modules are first hooked |
| Bundler.FileIndexIsFirstSeen | bundler.js:129-130 | a module's position, and so its `f<k>` alias, is the number of distinct modules hooked before its first hook |
| Bundler.GenerateClientIndex | bundler.js:110-113 | the entry module is empty exactly when there are no files |
| Bundler.IndexLine | bundler.js:112 | one line of the entry module, `exports.f<i> = require("<file>");`; what it means is stated by `ParseIndexLineExact`: it is the only line that reads back as `(i, file)` |
| Bundler.ParseIndexLineInverse | bundler.js:112 | every generated `exports.f<i> = require("<file>");` line reads back as `(i, file)` |
| Bundler.ParseIndexLineExact | bundler.js:112 | a line reads back as `(i, file)` if and only if it is the line generated for `i` and `file`; a padded index such as `f00` is refused |
| Bundler.ParseAssembledLine | bundler.js:112 | a line built from canonical digits (no superfluous leading zero) and a file reads back as the number the digits spell and the file |
| Bundler.ParseFramedAssembled | bundler.js:112 | for any prefix and a non-empty opening that starts with a non-digit, `<prefix><digits><open><file><close>` with canonical digits reads back as the number the digits spell and the file |
| Bundler.ParseFramedExact | bundler.js:112 | whatever the framing reads back as `(i, file)` is exactly `<prefix>`, the printed `i`, `<open>`, `file` and `<close>` |
| Bundler.ClientIndexLines | bundler.js:111-113 | split at newlines, the entry module gives one line per file, in list order; line `i` is the line re-exporting `files[i]` as `f<i>` and reads back as exactly `(i, files[i])`; this needs at least one file and no newline in a file |
| Bundler.BundledModuleLoadable | bundler.js:133 | the bundle's module path passes through `loadFn` unchanged |
| Bundler.AliasDroppedAsWritten | bundler.js:127-133 | as written, a hook `name: "m:fn"` with `fn != name` resolves to chain `fn` in `m` before the rewrite, but to `f<k>` and then `name` in the bundle after it, so it no longer reaches the same function |
| Bundler.FileAlias | bundler.js:130 | the export name `f${k}` of position `k` ("f-1" when the module is not listed); `FileAliasShape` states it is non-empty and holds no ':' or '.', and `SameAliasIffSameModule` that two hooks share an alias exactly when they share a module |
| Bundler.RewriteHook | bundler.js:126-134 | one hook after rewriting keeps its name, and the module part of its new path is the bundle module; its exact text is stated by `RewrittenHookPath` |
| Bundler.RewriteHookMap | bundler.js:125-134 | under either naming, rewriting one hooks object keeps its keys in order and keeps them distinct; only values change |
| Bundler.ReplaceOriginalHookWithBundledHooks | bundler.js:123-136 | under either naming, every map is rewritten and none is added, dropped or reordered; each hook keeps its name and gets its rewritten path (the exact text is in `RewrittenHookPath`) |
| Bundler.RewrittenHookPath | bundler.js:127-133 | with the file list built from the same maps, the index looked up is always in range (never "f-1") and points at the hook's module; as written the new path is `ep_webpack/static/js/dist/index:f<k>.<hookName>`, and keeping the alias it is `...:f<k>.<functionName>` |
| Bundler.NamingsAgreeIffNoAlias | bundler.js:127-133 | the code's rewrite and the alias-keeping one give the same hook if and only if the function `loadFn` would use is the hook name itself, so the code is right exactly for hooks without a differing alias |
| Bundler.SameAliasIffSameModule | bundler.js:129-130 | two hooks get the same `f<k>` alias if and only if they point into the same module |
| Bundler.RewrittenHookResolves | bundler.js:132-133 | a bundle path `dist/index:<alias>.<export>` resolves through `loadFn` to the bundle module and the chain `alias` followed by the export's dot-separated parts |
| Bundler.RewrittenHookTargetAsWritten | bundler.js:127-133 | after the rewrite as written, every hook reaches, through `loadFn`, export `f<k>` of the bundle for its original module, followed by the parts of its hook name |
| Bundler.RewrittenHookTarget | bundler.js:127-133 | after the alias-keeping rewrite, every hook reaches, through `loadFn`, export `f<k>` of the bundle for its original module, followed by the same lookup chain as its original path |
| Bundler.FileAliasShape | bundler.js:130 | an alias `f<k>` is non-empty and holds neither ':' nor '.' |
| Bundler.RewriteParts | bundler.js:124-135 | rewriting in place keeps every part's name and whether it has hooks |
| Bundler.RewritePartsCollects | bundler.js:24 | rewriting through the collected references is the same as rewriting the parts: the parts then hold the rewritten maps |
| Bundler.ReplaceAppend | bundler.js:124 | rewriting distributes over concatenation of the map list |
| Bundler.GenerateBundle | bundler.js:9-28 | the entry module is always written from the file list; the hooks are rewritten if and only if the write succeeds and the build finishes with `hasErrors()` false, and then the result is the same parts, each keeping its name and whether it has hooks, holding the collected maps rewritten under the given naming (`HookNameExport` in the source); otherwise the run fails with the write error, the build error or the compilation's error list, in that order of checking |
| Bundler.WriteFailureSkipsBuild | bundler.js:13-17 | a failed write ends the run before the build report is read |
| Hooks.Lookup | cssBundler.js:50 | a property is absent exactly when no key has that name; when present it is the path stored under that name |
| Hooks.ModulePath | bundler.js:96 | `split(':')[0]` is the longest prefix without a ':'; it is the whole path or is followed by the first ':' |
| Hooks.ModulePathOfDeclaration | bundler.js:127 | the module part of `module` or `module:fn` is `module` when the module has no ':' |
| Hooks.ParseHookPath | cssBundler.js:104-117 | outside the drive-letter case, the module is the first segment and a function name is present exactly when the path has a ':', taken from the second segment; a single-letter first segment keeps the colons and takes only a third segment as the function |
| Hooks.FunctionName | cssBundler.js:120 | a missing or empty function name falls back to the hook name, and the result has no ':' when the hook name has none |
| Hooks.ResolveHookPath | cssBundler.js:119-124 | the lookup chain is non-empty, has no '.' in any link, and joins back with '.' to the function name `loadFn` uses |
| Hooks.ParseDeclaration | cssBundler.js:104-117 | `loadFn` inverts writing a hook path: a loadable module and an optional colon-free function name come back unchanged |
| Hooks.ParsePlainDeclaration | cssBundler.js:114-117 | the inverse for modules without a ':' |
| Hooks.ParseDriveDeclaration | cssBundler.js:108-113 | the inverse for drive-letter modules such as `C:\foo` |
| Strings.Join | cssBundler.js:113 | `parts.join(c)`; its meaning is stated by `JoinSplit` and `SplitJoin`, which make it the inverse of `Split` |
| Strings.Split | bundler.js:96 | `s.split(c)` for a one-character separator: at least one segment and none holding the separator; `JoinSplit` and `SplitJoin` give the rest |
| Strings.FirstIndexOf | bundler.js:96 | the first separator position, or the length when there is none |
| Strings.JoinSplit | cssBundler.js:113 | joining the segments with the separator gives the original text back |
| Strings.SplitJoin | bundler.js:113 | splitting the join of separator-free parts gives the parts back |
| Strings.SplitAfter | bundler.js:127 | `(a + c + b).split(c)` is `[a]` followed by `b.split(c)` when `a` has no `c` |
| Strings.SplitSecondSegment | cssBundler.js:115-116 | the second segment runs from just after the first separator up to the next separator or the end |
| Strings.SplitThreeSegments | cssBundler.js:110-113 | a text with three segments is those segments joined by the separator |
| Strings.NatToString | bundler.js:112 | at least one digit, only digits, no leading zero unless the number is zero |
| Strings.ParseNatToString | bundler.js:112 | reading back a printed number gives the number |
| Strings.NatToStringInjective | bundler.js:130 | different numbers print differently |
| Strings.NatToStringParse | bundler.js:112 | printing the value of canonical digits gives the digits back, so printing and reading are inverse both ways |
| Strings.IntToString | bundler.js:130 | the text starts with '-' if and only if the number is negative; otherwise it is canonical digits that read back as the number, and after the '-' it is canonical digits that read back as the magnitude |
| Sequences.IndexOf | bundler.js:130 | -1 exactly when the element is absent; otherwise the position of its first occurrence |
| Sequences.Uniq | bundler.js:98 | no duplicates and the same elements as the input |
| Sequences.UniqIndex | bundler.js:98 | an element's position after `_.uniq` is the number of distinct elements before its first occurrence |
| Sequences.UniqFirstSeenOrder | bundler.js:98 | `_.uniq` keeps elements in first-occurrence order |
| Sequences.Flatten | bundler.js:94 | an element is in the flattening exactly when it is in one of the inner sequences |
| Sequences.FilterMembers | cssBundler.js:92-94 | a filter keeps exactly the elements that satisfy its predicate |
| Sequences.FilterPartition | cssBundler.js:92-94 | filtering by a predicate and by its complement together give every element exactly once |
| CssBundler.CssHookDeclarations | cssBundler.js:46-54 | the declarations are exactly the non-empty `aceEditorCSS` values of the maps |
| CssBundler.CssHookDeclarationsAppend | cssBundler.js:46-54 | declarations come in map order |
| CssBundler.StripLeadingSlash | cssBundler.js:69-72 | a path with exactly one leading '/' loses it and every other path is kept; afterwards a path starts with '/' only if it starts with "//" |
| CssBundler.StripLeadingSlashIdempotent | cssBundler.js:69-72 | cleaning a cleaned path changes nothing |
| CssBundler.MatchesExternalPattern | cssBundler.js:7 | `EXTERNAL_FILE_REGEXP.test(f)`, simulated with backtracking over the optional scheme group; `ExternalPatternMeaning` states it matches exactly the three external prefixes |
| CssBundler.ExternalPatternMeaning | cssBundler.js:7 | `/^(https?:)?\/\//` matches exactly the paths starting with "//", "http://" or "https://" |
| CssBundler.LoadCssFiles | cssBundler.js:59-74 | a declaration's provider resolved through `loadFn` and called, its paths cleaned, or a failure; `LoadedFileClean` states that no path it yields starts with a single '/' |
| CssBundler.CleanPaths | cssBundler.js:69-72 | the cleaned list has one entry per path, in order, and none starts with a single '/' |
| CssBundler.RunProviders | cssBundler.js:57-88 | the `map` with `try`/`catch` followed by `flatten`; `RunProvidersContents` states it exactly: the files are every provider's output in declaration order, the skipped list the failing declarations in order |
| CssBundler.RunProvidersAppend | cssBundler.js:57-88 | a failing provider affects no other: a list of providers yields what each part of the list yields, concatenated |
| CssBundler.RunOneProvider | cssBundler.js:59-86 | a failing provider adds its declaration and no files; a working one adds exactly its files |
| CssBundler.RunProvidersContents | cssBundler.js:57-88 | the files are every provider's output concatenated in declaration order and the skipped list is the failing declarations in order; so a declaration is skipped exactly when its provider fails, and a file is collected exactly when some provider that ran returned it |
| CssBundler.CollectCssFiles | cssBundler.js:56-88 | the files are the cleaned outputs of the providers, concatenated in declaration order; the skipped list is the failing declarations in order; a file is collected exactly when a provider that ran returned it; no file starts with a single '/' |
| CssBundler.LoadedFileClean | cssBundler.js:69-74 | no path a provider contributes starts with a single '/' |
| CssBundler.GroupByKind | cssBundler.js:92-94 | `_.groupBy` by the pattern: the two groups together have as many files as the input; `GroupByKindIsPartition` states they are the order-keeping filters |
| CssBundler.GroupByKindIsPartition | cssBundler.js:92-94 | the internal and external groups are the order-keeping filters by the pattern, and together hold every file exactly once |
| CssBundler.GroupByKindMembers | cssBundler.js:92-94 | each group holds exactly the files of its kind |
| CssBundler.NonEmpty | cssBundler.js:97-98 | a group with no member is absent, as `_.groupBy` never creates it |
| CssBundler.AnalyzeListOfCssFilesToBundle | cssBundler.js:45-101 | the files to bundle and the external files are the collected files of each kind in collection order, and together hold every collected file exactly once; files to bundle are internal and none starts with '/'; external ones match the pattern; an empty group is absent; the skipped list is the declarations whose provider failed, in declaration order and with repeats kept, so it holds exactly those declarations |

## Left out

- Writing the entry module (`fs.writeFile`) and running webpack are I/O. Their outcomes are inputs to `GenerateBundle`, and the path the file is written to is not modelled.
- Async callbacks and throws: the run is a single function, and a thrown error is a `Failure` value. Nothing is concurrent.
- `require` and the property walk are not modelled. A CSS provider is a parameter that maps the resolved target to its list of files or to a failure.
- The `console.error` messages and the homepage text they quote are left out, since they are output only.
- `webpack.config.js`, `webpack.config-options.js`, `index.js`, `editorEventEmitter.js` and the front-end fix are outside the bundling core. The test file's later API is left out too: ignored parts, `bundleCSS`, the CSS entries on the index and minify settings.
- Property order: JavaScript puts integer-like keys first. Hook names are taken as ordinary string keys, in insertion order.
- Non-string hook values and non-array provider results would throw or behave differently in JavaScript. The model types them as strings and sequences.
- Hooks.ParseHookPath: the drive-letter test `parts[0].length == 1` counts characters, not UTF-16 code units. A one-character first segment outside the Basic Multilingual Plane, such as an emoji, takes the drive-letter branch in the model but not in JavaScript.
- Hooks.ModulePath: for a drive-letter hook path such as `C:\x\y:fn`, the bundler lists the drive letter `C` as the file. The model keeps that behaviour as written, and the rewrite lemmas do not claim such hooks still resolve.
- Bundler.RewrittenHookTarget: stated only for hook names without ':'. `loadFn` would cut a rewritten path at such a colon.
- Bundler.RewrittenHookTargetAsWritten: stated only for hook names without ':', for the same reason.
- Bundler.ClientIndexLines: stated only for file names without a newline, and for at least one file, because `"".split("\n")` is `[""]`.
- Strings.Split: the contract gives only the segment count and that no segment holds the separator. Every other fact about splitting is a separate lemma.

## Findings

| source | as written | input that shows it | evidently intended | confidence | as-written member | corrected member |
|---|---|---|---|---|---|---|
| bundler.js:133 | the rewritten path always uses the hook name as the export, `dist/index:f<k>.<hookName>`, and drops the function alias the original path named | `hook1: "ep_plugin_with_alias_for_hook/static/js/index:alias_for_hook1"` becomes `...:f1.hook1`, which walks export `hook1` of that module instead of its function `alias_for_hook1` | `f<k>.<function name loadFn would use>`, i.e. the alias when present and the hook name otherwise; the repository's own test expects `f1.alias_for_hook1` | high; not executed | Bundler.AliasDroppedAsWritten | Bundler.RewrittenHookTarget |
