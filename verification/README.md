# strict-null-check-migration-tools, modelled in Dafny

These tools help move a TypeScript code base to `strictNullChecks` one file
at a time. They read the import graph of the sources and do four things:
- find the files all of whose imports are already strict-null-checked (the
  *eligible* files);
- group the files into import cycles (strongly connected components);
- rank the eligible files by how much depends on them;
- draw the condensation of the graph as a layered picture.

An auto-add driver tries each eligible file with a watch-mode compiler and
adds the ones that type-check cleanly to the configuration's `files` list.

This project models the analysis core of those tools and proves what the
code promises about it. The modules follow the source files:

| module (file) | source |
|---|---|
| `TsHelper` (tshelper.dfy) | src/tsHelper.ts: import extraction and its per-file memo |
| `FindCycles` (find_cycles.dfy) | src/findCycles.ts: Kosaraju's two-pass component search |
| `Eligibility` (eligibility.dfy) | src/getStrictNullCheckEligibleFiles.ts: eligible files and cycles |
| `Candidates` (candidates.dfy) | src/findCandidates.ts: widened import lists, importer counts, ranking |
| `Visualize` (visualize.dfy) | src/visualize.ts: condensation nodes, id lists, depth layers |
| `AutoAdd` (autoadd.dfy) | src/autoAdd.ts: configuration edit and the auto-add loop |
| `ErrorCounting` (errorcounter.dfy) | src/errorCounter.ts: the error-counter session |

`Wrappers`, `Seqs`, `Strings` and `ImportGraph` hold shared definitions:
- `Option` and `Result`;
- `filter`, `indexOf`, sorting and "push if absent" on sequences;
- plain lexicographic string order and decimal numerals;
- reachability in the import graph.

How the source's entities appear in the model:

- **Files and imports.** A file is its path, a `string`. The import graph
  `g: map<File, seq<File>>` stands for the memo of import extraction: `g[f]`
  is what `getImportsForFile` returns for `f`. Reading a file and
  pre-processing it become the parameter `raw`, the list of its import
  specifiers. Module resolution becomes the parameter `resolve`, a partial
  function.
- **`findCycles`.** Its closures `visit` and `assign` capture and update the
  dictionaries `imports`, `importers`, `fileToRoot` and `rootToFiles` and the
  list `filesInVisitOrder`. In the model they are methods that take these as
  parameters and return them updated. A ghost record of the traversal comes
  with them: the depth-first stack, the progress of each open file's loop,
  and the files whose imports were computed. `rootOrder` records the order
  in which `rootToFiles` gained its keys, which is the order
  `Object.values` lists them in.
- **`visualize`.** Nodes are updated in place. They are the elements of an
  `array<Node>`. Updating a field of a node means assigning the element a
  copy with that field changed, and a reference to a node is its index.
- **`autoAdd`.** The configuration is the record of its `files` and optional
  `exclude` keys. The compiler's verdict is a parameter
  `errorCountOf(config, file)`.
- **`ErrorCounter`.** It is a class with the fields the source sets. The
  child process becomes two flags: spawned, and not yet killed. The copy of
  the configuration becomes its parsed content. The compiler's output during
  one query becomes the sequence of text chunks it writes.

## Model

| member | source | states |
|---|---|---|
| TsHelper.GetImportsForFile | src/tsHelper.ts:12-41 | Every returned location is non-empty and lies outside `/vendor/` and `/node_modules/`. Every logged specifier is one of the file's specifiers that passes the extension filters. |
| TsHelper.ReduceKeeps | src/tsHelper.ts:22-40 | Each step of the `reduce` pushes only usable locations to the imports and only its own specifier to the log. |
| TsHelper.ExtractionMembers | src/tsHelper.ts:17-40 | A file is returned iff some raw specifier that survives the extension filters resolves to it, with a non-empty name containing neither `/vendor/` nor `/node_modules/`. A specifier is logged iff it survives the filters and does not resolve. |
| TsHelper.OnlyKeptAreResolved | src/tsHelper.ts:19-28 | The resolver is never consulted on `.css`, `.svg`, `.json`, `.js` or `.jsx` specifiers. Two resolvers that agree on the other specifiers give the same result. |
| TsHelper.LoggedAreUnresolved | src/tsHelper.ts:32-35 | The reduce logs exactly the specifiers the resolver finds nothing for (no result or an empty name). It never fails on them. |
| TsHelper.ImportsInOrder | src/tsHelper.ts:22-40 | The returned list is the resolved locations of exactly the surviving specifiers, in source order. The witness positions increase strictly and miss no surviving specifier. |
| TsHelper.ReduceAppends | src/tsHelper.ts:22-40 | A reduce from any accumulator appends to it what a reduce from the empty accumulator produces, for both the imports and the log. |
| TsHelper.ImportTracker.constructor | src/tsHelper.ts:46-49 | The memo starts empty and consistent. |
| TsHelper.ImportTracker.GetImports | src/tsHelper.ts:51-57 | A cached list is returned with the cache unchanged. Otherwise the computed list is returned and cached under `file` alone. An existing entry is never overwritten. The result is what the cache holds for `file` afterwards, and it is the extracted list. |
| FindCycles.Visit | src/findCycles.ts:24-44 | From any consistent traversal state, `visit(file)` returns one in which `file` has been visited. Earlier entries are kept, and every newly visited file is reachable from `file`. The kept invariant includes: each import list is computed once; `importers[t]` lists each visited file once for every import of `t` its loop has passed, so files importing `t` twice are listed twice; a file is pushed to `filesInVisitOrder` once, after all its imports; and Kosaraju's finishing-order property. |
| FindCycles.Assign | src/findCycles.ts:59-76 | `assign(file, root)` gives `file` a root when it has none. It never changes a root already given. Every newly assigned file gets `root`, and nothing changes when `file` already had one. The grouping of `fileToRoot`/`rootToFiles` is kept. |
| FindCycles.PostOrder | src/findCycles.ts:47-49 | After visiting every input file: the visited files are exactly those reachable from the inputs; each is in `filesInVisitOrder` once; `imports[f]` is the file's import list; `importers[z]` lists each visited file once for every time it imports `z`; and the finishing order has Kosaraju's property. |
| FindCycles.GroupByRoot | src/findCycles.ts:51-80 | Assigning the files in reverse finishing order gives every visited file a root. Two files get the same root exactly when each reaches the other. |
| FindCycles.FindCycles | src/findCycles.ts:17-83 | The returned lists are non-empty, free of repeats and pairwise disjoint. Their union is exactly the files reachable from the inputs. Two files share a list iff each reaches the other through imports. |
| FindCycles.CyclesPartition | src/findCycles.ts:82 | The lists `Object.values(rootToFiles)` yields are non-empty, free of repeats and pairwise disjoint. |
| FindCycles.CyclesCover | src/findCycles.ts:78-82 | A file is in some list iff it has a root, that is, iff it is reachable from the inputs. |
| FindCycles.CyclesAreComponents | src/findCycles.ts:59-82 | The files of one list mutually reach each other, and a file that mutually reaches a member is in the same list. |
| FindCycles.SingletonComponent | src/findCycles.ts:17-83 | A file on no import cycle is alone in its list. |
| Eligibility.ConsiderFile | src/getStrictNullCheckEligibleFiles.ts:7-10 | A file is considered iff it ends in `.ts`, or in `.tsx` without being a `.stories.tsx` story. Every `.ts` file is considered. |
| Eligibility.ForEachFileInSrc | src/getStrictNullCheckEligibleFiles.ts:29 | The walk keeps exactly the globbed files that `considerFile` accepts, in glob order. |
| Eligibility.HasUncheckedImport | src/getStrictNullCheckEligibleFiles.ts:12-20 | True iff some import of the file is not among the checked files. |
| Eligibility.ListStrictNullCheckEligibleFiles | src/getStrictNullCheckEligibleFiles.ts:38-51 | A file is returned iff the walk keeps it, it is not checked, and every import of it is checked. The result keeps the walk's order. |
| Eligibility.CycleIsChecked | src/getStrictNullCheckEligibleFiles.ts:71-82 | The flag loop is true iff every file of the cycle is checked. |
| Eligibility.AnyUncheckedImport | src/getStrictNullCheckEligibleFiles.ts:86-90 | The gate loop finds a file iff some enumerated file has an unchecked import. |
| Eligibility.EligibleCycles | src/getStrictNullCheckEligibleFiles.ts:65-92 | The filter as written keeps a cycle iff it has at least 2 files, one of them unchecked, and no enumerated file anywhere has an unchecked import. Any such file empties the result. |
| Eligibility.EnumeratedCycleNeverEligible | src/getStrictNullCheckEligibleFiles.ts:65-92 | When the cycles are components, the filter as written never returns a cycle all of whose files were enumerated. |
| Eligibility.AsWrittenEligibleCycles | src/getStrictNullCheckEligibleFiles.ts:57-93 | As written, every returned cycle is a whole component of at least 2 files, with an unchecked file and a file the walk did not produce. Nothing is returned while an enumerated file has an unchecked import. |
| Eligibility.TwoFileCycleAsWritten | src/getStrictNullCheckEligibleFiles.ts:84-90 | For two enumerated files importing each other, nothing checked, the filter as written returns nothing. |
| Eligibility.TwoFileCycleCorrected | src/getStrictNullCheckEligibleFiles.ts:84-90 | The corrected filter returns that cycle. |
| Eligibility.IntendedEligibleCycles | src/getStrictNullCheckEligibleFiles.ts:84-90 | The corrected filter keeps a cycle iff it has at least 2 files, one of them unchecked, and every import of its files is checked or in the cycle. |
| Eligibility.IntendedCycleCanBeAdded | src/getStrictNullCheckEligibleFiles.ts:53-56 | Once a returned cycle is added to the checked files, none of its files has an unchecked import. |
| Eligibility.OnEligibleCycleIsReturned | src/getStrictNullCheckEligibleFiles.ts:65-92 | The component of a file that lies on a cycle, has an unchecked member and imports nothing unchecked outside itself passes the corrected filter. |
| Eligibility.ListStrictNullCheckEligibleCycles | src/getStrictNullCheckEligibleFiles.ts:57-93 | Corrected: every returned cycle is a whole component of at least 2 mutually importing files, with an unchecked file, importing nothing unchecked outside itself. Every enumerated file on such a cycle is returned in some list. |
| Candidates.OneLevelDownImports | src/findCandidates.ts:92-109 | The key set is kept. Each new list is the file's direct imports, in order, followed by the imports of each direct import that is a key, in order and with duplicates. Every element is one or two import steps from the file. |
| Candidates.NestedMembers | src/findCandidates.ts:99-105 | The appended part holds exactly the imports of the direct imports that are keys. |
| Candidates.CountImporters | src/findCandidates.ts:115-129 | The keys are exactly `files`. Each count is the number of occurrences of that file across all import lists; imports outside `files` are never counted. |
| Candidates.TotalPositive | src/findCandidates.ts:120-128 | A file's count is positive iff it occurs in some import list. |
| Candidates.RankLe | src/findCandidates.ts:43-49 | A higher count always goes first, and a lower count never does. Two entries with equal counts are ordered by file name. |
| Candidates.RankLeIsTotalPreorder | src/findCandidates.ts:43-49 | The comparator (count descending, then name) is a total preorder. |
| Candidates.Ranked | src/findCandidates.ts:42-49 | The sorted entries are a permutation of the input. Counts do not increase, and equal counts are in name order. |
| Candidates.RankedUnique | src/findCandidates.ts:42-49 | The ranking does not depend on the order of `Object.entries`. |
| Visualize.AllChecked | src/visualize.ts:61-67 | The `checked` flag loop is true iff every file of the component is checked. |
| Visualize.AnyEligible | src/visualize.ts:68-76 | The `eligible` flag loop is true iff some file of the component is eligible. |
| Visualize.BuildNodes | src/visualize.ts:59-98 | Node `i` has id `i` and holds the component's files sorted. It is checked iff all its files are checked, and eligible iff not checked and some file is eligible. It has an error count only when eligible and counting, taken for the first file before sorting. Its lists are empty and both depths are -1. |
| Visualize.FileToNodeMap | src/visualize.ts:104-109 | The keys are exactly the files of the nodes. Each maps to a node holding it, the last such node. |
| Visualize.MakeDependenciesLists | src/visualize.ts:127-148 | Every node gets appended the ids of the nodes its files import from outside the node, in the order met, each once. Nothing else changes. |
| Visualize.MakeDependentsLists | src/visualize.ts:150-170 | Every node gets appended the ids of the nodes that import into it from outside themselves, in node order, each once. Nothing else changes. |
| Visualize.DependenciesListed | src/visualize.ts:132-147 | With ids equal to indices, a node's dependencies are exactly the nodes it imports into, without repeats. |
| Visualize.DependentsListed | src/visualize.ts:155-169 | With ids equal to indices, `i` is among node `j`'s dependents iff node `i` imports into node `j`, without repeats. |
| Visualize.DependencySymmetry | src/visualize.ts:111-112 | After both passes, `j` is among node `i`'s dependencies iff `i` is among node `j`'s dependents, and no list repeats an id. |
| Visualize.NoSelfDependency | src/visualize.ts:135-139 | With `fileToNodeMap` as built, no node lists itself as a dependency. |
| Visualize.DepthLayers | src/visualize.ts:172-204 | The layer is 0 iff the node lists nothing. Every listed node is in a shallower layer, and some listed node is exactly one layer shallower (1 + the maximum). |
| Visualize.DepthUnique | src/visualize.ts:172-204 | The layer does not depend on the witness of acyclicity. |
| Visualize.HasUnprocessed | src/visualize.ts:181-188 | The flag loop is true iff some listed node has no depth yet. |
| Visualize.SplitRemaining | src/visualize.ts:178-196 | The `filter` keeps, in order, the nodes with a listed node that has no depth yet. The rest form the current layer, in order. |
| Visualize.CalculateDepth | src/visualize.ts:172-238 | Every node gets as its depth of the chosen direction the layer `Depth` gives it. Nothing else changes. |
| Visualize.AssignLayer | src/visualize.ts:198-200 | The nodes of the current layer get depth `d`, and no other node changes. |
| Visualize.CalculateDependencyDepth | src/visualize.ts:172-204 | `dependencyDepth` becomes the layer over the dependencies lists, and nothing else changes. |
| Visualize.CalculateDependentDepth | src/visualize.ts:206-238 | `dependentDepth` becomes the layer over the dependents lists, and nothing else changes. |
| AutoAdd.AddFileToConfig | src/autoAdd.ts:48-58 | An excluded path loses its first `exclude` entry, with `files` unchanged. Any other path is added once to `files`, which ends up sorted, with `exclude` unchanged. A missing `exclude` counts as not excluded. |
| AutoAdd.AddedFileNotExcluded | src/autoAdd.ts:50-56 | A path excluded at most once is not excluded afterwards. It is in `files` unless it was excluded. |
| AutoAdd.AddAllFiles | src/autoAdd.ts:54-55 | With no `exclude`, adding paths lists each of them once more in `files`. |
| AutoAdd.AddAllConcat | src/autoAdd.ts:34 | Adding some paths and then more is the same as adding them all in order. |
| AutoAdd.PassAddsIffSomeClean | src/autoAdd.ts:22-36 | A pass sets `hasAddedFile` iff the counter reports 0 for some eligible file. |
| AutoAdd.AutoAddPass | src/autoAdd.ts:22-43 | A pass adds exactly the files reported with 0 errors, in eligible order, and appends every eligible file to `checkedFiles`. |
| AutoAdd.OneFileEligible | src/getStrictNullCheckEligibleFiles.ts:38-51 | In a one-file project whose file imports nothing, the file is eligible against the original checked set. |
| AutoAdd.AsWrittenLoop | src/autoAdd.ts:21-45 | The loop as written only appends to `checkedFiles`, and everything it appends is eligible against the original checked files `fileNames`. |
| AutoAdd.AsWrittenKeepsAdding | src/autoAdd.ts:21-45 | While the only eligible file always passes, each pass of the loop as written adds it once more. |
| AutoAdd.AsWrittenNeverStops | src/autoAdd.ts:21-45 | The loop as written does not end: after any `n` passes another is due, and `files` lists the file `n` times. |
| AutoAdd.IntendedStepKeeps | src/autoAdd.ts:24-42 | A corrected pass keeps the loop invariant: checked files grow only by eligible files, each once, and the configuration is the original with them added in order. |
| AutoAdd.IntendedStepTries | src/autoAdd.ts:24-42 | A corrected pass tries every file eligible against the current checked files. |
| AutoAdd.IntendedStepShrinks | src/autoAdd.ts:41-42 | A corrected pass never enlarges the set of untried files, and shrinks it when it adds a file. |
| AutoAdd.TryAutoAddStrictNulls | src/autoAdd.ts:12-46 | The corrected loop terminates, and its result is `IntendedLoop` from the original configuration: pass after pass, each pass is `Pass` over the files eligible against the checked files of that moment and not tried yet, until a pass adds nothing. The checked files end as the original ones followed by the added files, each a walked source file listed once and importing only files checked before it. The configuration is the original with those files added in order. Every file eligible at the end has been tried. No file is tried twice, and none of the original checked files is tried. Every added file got the count 0 on the configuration of a moment at which it was eligible, and every tried file is added iff its count on such a moment's configuration was 0; `IntendedVerdicts` names that moment as the start of the pass that tried it. |
| AutoAdd.IntendedVerdicts | src/autoAdd.ts:24-42 | Every file the corrected loop tries was among the files of one of its passes, and it ends up added iff the session of that pass, started on the configuration the pass began with, reported 0 for it. |
| AutoAdd.IntendedAddsUntried | src/autoAdd.ts:24-42 | The corrected loop adds only files not tried when it started, and it never drops a tried file or a checked file. |
| AutoAdd.TriedOnceStep | src/autoAdd.ts:41-42 | A corrected pass tries each of its files once and none tried before, so no file is tried twice. |
| AutoAdd.AddedCleanStep | src/autoAdd.ts:24-42 | A corrected pass adds only files its session reports with 0 errors on the configuration the pass began with, and files added before keep a moment at which they were reported clean. |
| AutoAdd.TriedFairlyStep | src/autoAdd.ts:24-42 | A corrected pass tries only files eligible against the checked files at its start, and adds such a file iff its session on the configuration of that start reports 0. Files tried earlier keep their verdict, because a pass adds only untried files. |
| ErrorCounting.DigitsEnd | src/errorCounter.ts:4 | The `\d+` run found is maximal. |
| ErrorCounting.FindFromFinds | src/errorCounter.ts:4 | The search finds a count iff the pattern matches somewhere. |
| ErrorCounting.FindFromLeftmost | src/errorCounter.ts:4 | The count found is the leftmost match's. |
| ErrorCounting.CompletionLineParses | src/errorCounter.ts:4 | The count printed on a completion line (`error.` for 1, `errors.` otherwise) is parsed back exactly. |
| ErrorCounting.CompletionCountIgnoresCase | src/errorCounter.ts:4 | The `i` flag: two chunks equal up to letter case give the same count. |
| ErrorCounting.FirstReportResolves | src/errorCounter.ts:42-57 | Chunks without a match are ignored, and the first that matches resolves the query with its count. |
| ErrorCounting.ResolvedByFirstReport | src/errorCounter.ts:42-57 | A resolved query was resolved by the first matching chunk. |
| ErrorCounting.NoReportNeverResolves | src/errorCounter.ts:42-57 | Output without a match never resolves the query. |
| ErrorCounting.Spread | src/errorCounter.ts:60 | Spreading an array gives its items and a string gives its characters. Anything else throws. |
| ErrorCounting.TentativeConfig | src/errorCounter.ts:59-64 | The written configuration keeps every key. Keys other than `files` are unchanged, and `files` is the original `files` plus the one candidate. It fails exactly where the spread throws. |
| ErrorCounting.TentativeRoundTrip | src/errorCounter.ts:60 | Removing the candidate gives the original back, so candidates do not accumulate across queries. |
| ErrorCounting.CopyPathLength | src/errorCounter.ts:14 | For a draw below 65536, the copy's name adds 10 to 14 characters to the configuration path. |
| ErrorCounting.CopyPathDraw | src/errorCounter.ts:14 | The copy's name is the configuration path, `copy`, the draw's numeral and `.json`. The draw can be read back from it. |
| ErrorCounting.ErrorCounter.constructor | src/errorCounter.ts:6-11 | No process, no copy path, no original configuration. |
| ErrorCounting.ErrorCounter.Start | src/errorCounter.ts:13-23 | Sets the copy path from the draw and the original and copied configuration. It spawns the compiler. |
| ErrorCounting.ErrorCounter.End | src/errorCounter.ts:25-32 | Fails with no process. Otherwise it kills the process without clearing the field and removes the copy; removal fails when there is no copy. |
| ErrorCounting.ErrorCounter.TryCheckingFile | src/errorCounter.ts:34-66 | Fails with no process or no copy path, leaving everything unchanged. It fails when `files` is not iterable. Otherwise it writes the tentative configuration to the copy and yields the first count in the output; a killed compiler's query never resolves. |

## Left out

- The file system, the glob walk, `fs.realpathSync` and reading and writing the configuration are not modelled. The walk's result is the parameter `globbed`, and the configuration is an in-memory value.
- `ts.preProcessFile`, `ts.resolveModuleName` and reading the TypeScript configuration are not modelled. They are the parameters `raw` and `resolve`, and the checked files `fileNames`.
- Path normalisation is not modelled: `path.resolve`, `path.relative` and `path.dirname`. Relative and absolute paths are not told apart, so the candidate written to the configuration is the file name itself.
- The child process is not modelled: `spawn`, `kill`, `cp`/`rm` through `execSync`, the stdout stream and the timing of promise resolution. The process is two flags and its output is a sequence of chunks.
- ErrorCounting.CompletionCount: the `/g` flag makes `exec` carry `lastIndex` from one chunk to the next. The model parses each chunk from its start.
- ErrorCounting.ErrorCounter.TryCheckingFile: the query's listener stays registered, so listeners of unresolved queries can resolve on later output. The model looks at one query's output alone. The listener's own guard (src/errorCounter.ts:43-45) cannot fail in the model, because `end()` does not clear the field it tests.
- `JSON.parse` failures, JSON text layout and key order are not modelled. Numbers are read as integers; counts above 2^53 lose precision in JavaScript but not here.
- ErrorCounting.ErrorCounter.Start: `n` stands for the random draw. The source draws below 65536, and the precondition says so.
- `localeCompare` and the default `Array.prototype.sort` are modelled as plain lexicographic order on characters (Unicode scalar values). This concerns src/findCandidates.ts:47, src/autoAdd.ts:55 and src/visualize.ts:85. `localeCompare` follows the locale's collation instead. The default `sort` compares UTF-16 code units, so it differs from the model between a character above U+FFFF (a surrogate pair, units from U+D800) and a character in U+E000–U+FFFF: `sort` puts the latter last, the model first.
- AutoAdd.AddFileToConfig: the model assumes the configuration has a `files` array. Without one, `config.files.push` at src/autoAdd.ts:54 throws a `TypeError`, which the model does not represent. ErrorCounting.TentativeConfig, by contrast, models a missing or non-iterable `files` at src/errorCounter.ts:60 as a failure.
- ErrorCounting.ErrorCounter.TryCheckingFile: a failed spread yields one representative message (`FilesNotIterable`) for every `TypeError` the spread at src/errorCounter.ts:60 can throw; the runtime's text depends on the value, e.g. "Cannot read properties of null" for a configuration that parses to `null`.
- Visualize.MakeDependenciesLists: an import whose file has no node makes `fileToNodeMap[dependency]` undefined, and the destructuring at src/visualize.ts:139 throws. The model requires every such import to have a node (`Resolvable`). At the call site this pass runs first, so it is the one that throws.
- Visualize.MakeDependentsLists: the same missing node makes `dependencyNode.dependents` at src/visualize.ts:163-165 throw. The model carries the same `Resolvable` requirement.
- Visualize.CalculateDepth: the layer loop ends only when the lists hold no cycle. The model requires a witness of that (`rank`) and does not model the endless loop on cyclic lists. It does not derive acyclicity from the component search either.
- AutoAdd.TryAutoAddStrictNulls: it models the loop as corrected (see Findings). It requires the walk to list each file once (`NoDup(globbed)`), as a glob does.
- The summary drivers are not modelled: the argument parsing and console reports of findCandidates, visualize and autoAdd, the output of `data.js`, and the scripts src/runFindCycles.ts and src/findRemainingFiles.ts.
- Two behaviours a reader might expect are not what the code does, and the model follows the code.
  - After `end()`, a check does not fail its guard, because `tscProcess` is never cleared.
  - Adding an excluded path removes only its first `exclude` entry and does not add it to `files`.

## Findings

| source | as written | input that shows it | evidently intended | confidence | as-written member | corrected member |
|---|---|---|---|---|---|---|
| src/autoAdd.ts:21-45 with src/getStrictNullCheckEligibleFiles.ts:38-40 | Every pass computes eligibility against the original `config.fileNames`. The `checkedFiles` argument is not a parameter of `listStrictNullCheckEligibleFiles`, and the configuration is not read again. | A project with one unchecked file `a.ts` that imports nothing and compiles cleanly. Every pass adds `a.ts` again, the loop never ends, and `files` lists `a.ts` once per pass. | Eligibility against the files checked so far, skipping files already tried. The loop then ends, and no file is added twice. | not executed | AutoAdd.AsWrittenNeverStops | AutoAdd.TryAutoAddStrictNulls |
| src/getStrictNullCheckEligibleFiles.ts:84-90 | The gate loops over all enumerated `files`, not over `filesInCycle`. A cycle is rejected whenever any source file has an unchecked import, including a cycle's own files, which import its unchecked member. | Two enumerated files `a.ts` and `b.ts` that import each other, nothing checked. The result is empty, and no cycle of enumerated files is ever returned. | As the comment at line 84 says: the imports of the cycle's own files must be checked. Imports within the cycle are exempt, since otherwise no cycle could pass. | not executed | Eligibility.EnumeratedCycleNeverEligible | Eligibility.IntendedEligibleCycles |
