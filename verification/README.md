# Verified models of glass-lint

glass-lint analyses JavaScript and TypeScript projects with a catalog of rules.
This project models the parts of it that are state machines or fast forms with a
simple specification, and proves them against that specification.

| file | component |
|---|---|
| Batch.dfy | The bounded parallel batch. Workers and the channel are a nondeterministic environment that may also lose workers or forge completions; the driver yields results in input order |
| DepthFirst.dfy, ReferenceWalk.dfy | The explicit-stack walk over tsconfig project references, against recursive depth-first search and against paths and cycles of the graph |
| Inheritance.dfy, Membership.dfy | The `extends` chain: budgets, cycle cutting, the merge of selections, and which sources the merged selection selects |
| Rebase.dfy, RebaseChain.dfy | Rebasing tsconfig paths and patterns between directories, once and along a whole chain |
| Patterns.dfy, PatternSelection.dfy | What compiled patterns select, and what is left of an inherited one; the closed form of selection by patterns over a whole chain |
| Outside.dfy | Lexical normalization of project paths and of targets outside the project |
| Loader.dfy, ResolutionCache.dfy | The import frontier: waves, budgets, deduplication and the two-level resolver cache, against the least closed set |
| Selection.dfy | Wildcard rule selectors, against the meaning of `*`, and ordered overrides |
| History.dfy | A tree of deltas with a cursor; transitions undo and redo through the lowest common ancestor, against a store of whole states |
| PathStore.dfy | Hash-consed member paths, with links between stores |
| Trace.dfy | Hash-consed evidence traces |
| LineIndex.dfy | Byte offsets to lines and columns over UTF-8 |
| Fingerprint.dfy | Host environments, their merge, and the bytes that identify them |
| Depth.dfy | The syntax-depth scanner and the guard around the parser |
| Sequences.dfy, Strings.dfy, Wrappers.dfy | Shared notions |

`dafny verify dfyconfig.toml` verifies the whole project.

Components that update their state in place are classes whose methods are proved
against functions of the old state; the theorems are about those functions. The
contracts of the main operations also say what they do without those functions, in
terms of the inputs and of the parameters alone. The
filesystem, the parser, the glob library, the module resolver and deltas'
meanings are parameters: functions without any assumption beyond those written
in a contract.

## Promises that do not hold for every input

Each point has a lemma with a concrete input and the exact condition under which
the promise of the comment in the code holds.

- The normalization of outside targets is documented to keep absoluteness. It does
  not: `C:/..` becomes `C:`, and `./C:/x` becomes `C:/x`. `ProjectInput.OutputAbsoluteness`
  tells the cases apart from the segments of the input.
- Every inherited tsconfig path is documented to be interpreted relative to the config
  that declared it. An entry of `files` whose rendered part holds a backslash means
  another path after the rebase (`TsconfigPaths.RebasePreservesMeaning`,
  `TsconfigMembership.InheritedFilesKeepTheirMeaning`), and then rebasing level by level
  is not rebasing once either (`TsconfigRebaseChains.RebaseDownIsOneRebase`).
- The same comment covers `include` and `exclude`, whose patterns are only matched below
  the inheriting config's own directory. A config in `/p/c` that extends one in `/p`,
  neither with `files` or `include`, selects nothing: the default include comes down as
  `../**/*` (`TsconfigPatternSelections.SharedConfigExample`, and in general
  `TsconfigPatternSelections.DefaultIncludeSelects`). An inherited pattern counts only
  if its target lies below that directory (`TsconfigPatterns.RebasedPatternSelects`), and
  `TsconfigPatterns.InheritedKeepsSelection` says when it still selects there what it
  selected before. Within one directory a backslash makes no difference to a pattern
  (`TsconfigPatterns.InheritedAlongside`); on the way to another it does not separate, so
  a pattern `c\*` from `/p` is not one that leads into `/p/c`.
- A chain with an invalid `files` or `include` field is documented to accept no
  source. It does when the nearest mention of `files` is a list with an entry that
  leads to an accepted file (`TsconfigMembership.InvalidChainSelectsExactly`).

## Behaviour worth knowing

No comment promises otherwise, but a caller might expect it.

- Normalizing a relative path twice fails for inputs like `./C:/x`
  (`ProjectInput.NormalizeRelativeIdempotence`).
- A directory pattern with a trailing slash is no longer expanded once it is
  inherited: `a/` comes down as `a`. A last component that ends in a backslash, as in
  `a\/`, is expanded all the same (`TsconfigPaths.RebasedPatternExpands`).
- The default exclusions and output directories of every config down from the nearest
  `exclude` list add up (`TsconfigMembership.ExclusionsAccumulate`), but those from above
  count only where they lead below the first config's directory
  (`TsconfigPatternSelections.PatternModeSelects`).
- An exclusion without wildcards, such as an output directory, excludes no file below it
  unless it ends in a slash (`TsconfigPatterns.LiteralDirectorySelects`).
- A pattern behind `./` selects nothing in the config that declares it, although it may
  once it is inherited (`TsconfigPatterns.DotSelectsNothing`).
- Merging environments can take a promoted member away, because a full object wins
  over a restricted one (`HostEnvironments.MergeKeepsPromotions`).
- A lifecycle trace cannot tell requirements from prior sinks when the caller gives
  both the requirement role (`EvidenceTraces.LifecycleTracesTell`).
- A member chain longer than the depth limit is only noticed at the next opening
  delimiter (`SyntaxDepth.ExcessIsAtTheLastOpening`), and the check after parsing can
  never fail (`SyntaxDepth.LateCheckNeverExceeds`).

## Model

| member | source | states |
|---|---|---|
| BatchProtocol.LintBatch | glass-lint-core/src/lint/batch.rs:265-324 | Every interleaving of a faithful pool yields exactly `BatchResult(i, path of i, lint of i)` for every input `i` in order, and the drain ends; a pool that may lose workers but forges nothing never aborts the batch, and each result is the lint result or a worker panic; in any environment results are in input order under the right paths, and a drain that neither hangs nor aborts yields every input once |
| BatchProtocol.BatchDriver.NextResult | glass-lint-core/src/lint/batch.rs:307-324 | Each call ends (measure: unresolved entries) and yields the next input or reports the end, for good and only when everything pulled was yielded; a hang needs a lost worker while the driver keeps its own sender |
| BatchProtocol.BatchDriver.AwaitFront | glass-lint-core/src/lint/batch.rs:312-323 | Waiting for the front entry keeps the invariant of the driver and shrinks the unresolved set with every message |
| BatchProtocol.BatchDriver.ReceiveCompletion | glass-lint-core/src/lint/batch.rs:294-305 | A message, a protocol error or a disconnect each leaves fewer unresolved entries; a protocol error aborts and drops the sender |
| BatchProtocol.BatchDriver.Refill | glass-lint-core/src/lint/batch.rs:265-286 | Afterwards as many inputs are in flight as the window allows, or the input is exhausted or the batch aborted; an aborted batch pulls nothing |
| BatchProtocol.BatchDriver.CloseInput | glass-lint-core/src/lint/batch.rs:288-292 | The driver's own sender is dropped exactly when the input is exhausted |
| BatchProtocol.BatchDriver.TakeReady | glass-lint-core/src/lint/batch.rs:189-204 | The front entry, if its result is in, leaves the window under its own index and path; otherwise nothing changes |
| BatchProtocol.BatchDriver.SubmitSource | glass-lint-core/src/lint/batch.rs:272-284 | A pulled input enters the window under the next index and is owed by a worker from then on |
| BatchProtocol.PendingBatch.Submit | glass-lint-core/src/lint/batch.rs:154-162 | The pending keys stay the interval from the next expected to the next index |
| BatchProtocol.PendingBatch.Complete | glass-lint-core/src/lint/batch.rs:164-173 | A completion is accepted exactly for an unresolved index; unknown and duplicate indexes change nothing and are told apart |
| BatchProtocol.PendingBatch.FailProtocol | glass-lint-core/src/lint/batch.rs:175-179 | Every entry turns into a worker panic, under its own path |
| BatchProtocol.PendingBatch.SynthesizeMissing | glass-lint-core/src/lint/batch.rs:181-187 | Only the unresolved entries turn into worker panics |
| BatchProtocol.PendingBatch.TakeReady | glass-lint-core/src/lint/batch.rs:189-204 | Exactly the entry at the next expected index leaves, and only with a result |
| BatchProtocol.Workers.Receive | glass-lint-core/src/lint/batch.rs:294-305 | The environment: without forgery every message is an owed completion, in any order, and nothing is owed after a disconnect; a faithful one delivers as long as something is owed |
| BatchProtocol.MissingSettles | glass-lint-core/src/lint/batch.rs:181-187 | After a disconnect the unresolved entries are exactly those of lost workers |
| ReferenceWalk.WalkReferences | glass-lint-project/src/discovery.rs:85-176 | On success, told from `parse` and `resolve` alone: the opened configs start at the root, each once; the next one is always the first existing reference not followed yet of the latest opened config that has one, and none is left out; each expansion is the selection of the config's ancestor chain in its own directory; a missing reference is reported if and only if it is a reference of an opened config that resolves to nothing, what building a selection reports is reported, and a cycle if and only if an opened config lies on a cycle of references. A depth error means a path of distinct configs as long as the budget; another failure without an interruption points at a reachable config whose ancestor chain cannot be read within what the configs opened before have left, or one of whose references cannot be read |
| ReferenceWalk.WalkOrderIsUnique | glass-lint-project/src/discovery.rs:85-176 | Those clauses determine the order of the walk |
| ReferenceWalk.NextIsReference | glass-lint-project/src/discovery.rs:146-160 | The next target of the search is the first reference of its config that is not followed yet; references to nothing are passed over and none is skipped |
| ReferenceWalk.TargetsAreReferences | glass-lint-project/src/discovery.rs:146-160 | The targets searched are exactly what the references resolve to |
| ReferenceWalk.FindingsWrittenOut | glass-lint-project/src/discovery.rs:146-171 | The findings of a config: its references that resolve to nothing, and what building its selection reports |
| ReferenceWalk.DiagnosticsWrittenOut | glass-lint-project/src/discovery.rs:105-171 | The diagnostics of a finished search, told from references and configs |
| DepthFirstSearch.OpensInPreorder | glass-lint-project/src/discovery.rs:95-160 | A finished search opened the root first, and then always the first unopened target of the latest opened node that has one |
| DepthFirstSearch.VisitIsPreorder | glass-lint-project/src/discovery.rs:101-160 | Every visit keeps that order and the order of the active nodes in it |
| DepthFirstSearch.ReportsTheFindings | glass-lint-project/src/discovery.rs:126-171 | A finished search reports exactly the findings of the nodes it opened |
| ReferenceWalk.TsconfigGraphWalker.Walk | glass-lint-project/src/discovery.rs:95-173 | The explicit stack computes the recursive search; the loop ends by (config budget left, stack length); a failed build happens at a blocked config |
| ReferenceWalk.TsconfigGraphWalker.Step | glass-lint-project/src/discovery.rs:101-172 | Each iteration keeps what is left to do and the invariant of the stack: the active configs are a path of the reference graph from the root within the depth budget, and every waiting Enter item is the root or a target of the config that will be innermost when it is popped, at exactly that depth; a config is expanded or the stack shrinks |
| ReferenceWalk.TsconfigGraphWalker.EnterConfig | glass-lint-project/src/discovery.rs:105-172 | Handling an Enter item leaves what was left to do with the item in place and keeps the active path and the grounded stack; a depth error happens only where the recursive search exceeds its budget, a build error only at a blocked config |
| ReferenceWalk.TsconfigGraphWalker.Open | glass-lint-project/src/discovery.rs:126-172 | The configs opened stay distinct and reachable, and exactly their ancestor chains have been charged |
| ReferenceWalk.TakeNew | glass-lint-project/src/discovery.rs:126-160 | A first entry: its pushed items do what the recursive visit does, on a path that is one config longer |
| ReferenceWalk.TsconfigGraphWalker.LeaveConfig | glass-lint-project/src/discovery.rs:102-104 | Handling an Exit item finishes the innermost active config; the shorter list is still a path from the root |
| ReferenceWalk.ExpandedGrounded | glass-lint-project/src/discovery.rs:126-160 | The references pushed above an Exit item are targets of the config just entered, one level deeper |
| ReferenceWalk.TsconfigGraphWalker.Expand | glass-lint-project/src/discovery.rs:126-172 | Entering a config once marks it, reports its findings and pushes an Exit below its targets |
| ReferenceWalk.TsconfigGraphWalker.PushReferences | glass-lint-project/src/discovery.rs:145-171 | The existing targets are pushed with the first on top; each missing one is reported |
| ReferenceWalk.TsconfigGraphWalker.BuildEffective | glass-lint-project/src/tsconfig/mod.rs:324-344 | The config's selection, references and diagnostics are those of its ancestor chain, and the chain is charged to the shared budget; a failure without an interruption means that no chain fits |
| ReferenceWalk.RunEnterItems | glass-lint-project/src/discovery.rs:145-160 | Working off pushed targets is the recursive visit of all of them, in order |
| ReferenceWalk.ExpandIsVisit | glass-lint-project/src/discovery.rs:126-160 | An expansion plus its pushed items is the recursive visit of the config |
| DepthFirstSearch.OpensExactlyTheReachable | glass-lint-project/src/discovery.rs:120-125 | A finished search has opened exactly the reachable nodes, each once |
| DepthFirstSearch.ReportsExactlyTheCycles | glass-lint-project/src/discovery.rs:113-119 | A finished search has reported a cycle if and only if a cycle is reachable, and only real ones (finishing-order argument) |
| DepthFirstSearch.VisitKeepsInvariant | glass-lint-project/src/discovery.rs:101-173 | In the recursive search that the stack computes: everything visited is reachable and finished nodes have finished targets, through every visit |
| DepthFirstSearch.ActiveTargetIsOnCycle | glass-lint-project/src/discovery.rs:113-119 | A reference to an active config closes a real cycle |
| DepthFirstSearch.FinishedIsAcyclic | glass-lint-project/src/discovery.rs:113-119 | In a finishing order no finished node lies on a cycle |
| TsconfigInheritance.TsconfigTraversal.BuildInner | glass-lint-project/src/tsconfig/mod.rs:346-438 | On success: every config's link leads to the next one of an acyclic chain, the last one's nowhere or back into the chain; the selection is the fold of the merge over it; the diagnostics are the invalid fields of its configs, unsupported and missing links, and an extends cycle if and only if the last link leads back; the chain is restored and both budgets respected. It fails without an interruption only if no ancestor chain fits, and names a config that cannot be parsed or whose link cannot be read. Terminates by depth budget minus chain length |
| TsconfigInheritance.ReportsWrittenOut | glass-lint-project/src/tsconfig/mod.rs:354-425 | What a chain reports, diagnostic by diagnostic |
| TsconfigInheritance.AncestryLinks | glass-lint-project/src/tsconfig/mod.rs:395-425 | Where each link of a chain leads |
| TsconfigInheritance.TsconfigTraversal.Enter | glass-lint-project/src/tsconfig/mod.rs:354-386 | Which error is reported: the depth before the count before the parse; a depth error charges nothing, the others have charged the chain and the count; no error adds a diagnostic, and each means that no ancestor chain fits |
| TsconfigInheritance.TsconfigTraversal.ResolveParent | glass-lint-project/src/tsconfig/mod.rs:395-425 | An extends link adds the parent's chain, or a diagnostic for an unsupported, missing or cyclic one |
| TsconfigInheritance.AncestryIsUnique | glass-lint-project/src/tsconfig/mod.rs:346-438 | There is only one ancestor chain, so a build is determined |
| TsconfigInheritance.TsconfigTraversal.FitsAbove | glass-lint-project/src/tsconfig/mod.rs:361-377 | Behind an open extends link a config's chain fits into the budgets if and only if its parent's does, one level and one config further on |
| TsconfigInheritance.BuildStep | glass-lint-project/src/tsconfig/mod.rs:427-437 | One merge on top of the inherited selection is the fold over the longer chain |
| TsconfigMembership.InvalidFieldIsRemembered | glass-lint-project/src/tsconfig/selection.rs:76-78 | The selection is marked invalid if and only if some config on the chain has a null or wrong-typed `files` or `include` |
| TsconfigMembership.InvalidFieldClosesPatternMode | glass-lint-project/src/tsconfig/selection.rs:422-437 | In pattern mode such a chain selects no source |
| TsconfigMembership.InvalidChainSelectsExactly | glass-lint-project/src/discovery.rs:287-299 | Such a chain still selects a source if and only if the nearest mention of `files` is a list with an entry that, rebased and joined to the first config's directory, is an accepted path to it (the comment on the pattern set promises that no source is accepted) |
| TsconfigMembership.InvalidIncludeWithFilesSelects | glass-lint-project/src/tsconfig/selection.rs:80-89 | A config of that kind, one file given and `include` null: it selects exactly what the file leads to |
| TsconfigMembership.NearestFilesDecide | glass-lint-project/src/tsconfig/selection.rs:80-89 | The explicit list is the one of the nearest config that mentions `files`, rebased level by level; an invalid mention counts as an empty list |
| TsconfigMembership.NearestIncludeDecides | glass-lint-project/src/tsconfig/selection.rs:91-99 | The include patterns are those of the nearest config that mentions `include`, rebased level by level; the default pattern belongs to the farthest ancestor |
| TsconfigMembership.ExclusionsAccumulate | glass-lint-project/src/tsconfig/selection.rs:91-137 | In pattern mode the exclusions are exactly those contributed by the configs down from the nearest one with an `exclude` list, or from the farthest ancestor: its own list, the package directories and the output directories, each rebased level by level |
| TsconfigMembership.InheritedKeepsMeaning | glass-lint-project/src/tsconfig/selection.rs:46-61 | Over a whole chain an entry, read as a path like those of `files`, leads to the same path if and only if it is absolute or no directory on the way down leaves a component with a backslash to render |
| TsconfigMembership.InheritedFilesKeepTheirMeaning | glass-lint-project/src/tsconfig/selection.rs:278-282 | Entry by entry, the effective file list stands for the file its declaring config meant, exactly for the absolute or clean entries |
| TsconfigMembership.InheritedFilesSelect | glass-lint-project/src/discovery.rs:287-299 | On a disk without links a clean inherited list selects exactly the sources its declaring config would have selected |
| TsconfigPatternSelections.PatternModeSelects | glass-lint-project/src/discovery.rs:300-317 | A whole chain in pattern mode, without any rebase: it selects a source if and only if no field is invalid, every pattern compiles, and the walk finds the source where a declared include selects it and no exclusion does; a pattern from above counts with what is left of its target below the first config's directory, and not at all when its target lies elsewhere |
| TsconfigPatternSelections.InheritedPatternSelects | glass-lint-project/src/tsconfig/selection.rs:374-386 | One inherited pattern, over a chain of any length |
| TsconfigPatternSelections.DefaultIncludeSelects | glass-lint-project/src/tsconfig/selection.rs:91-99 | The default include of a chain selects exactly the files in its farthest ancestor's directory, and nothing unless that directory is the first config's own or below it |
| TsconfigPatternSelections.DefaultIncludeIsLost | glass-lint-project/src/discovery.rs:300-317 | Then a chain without `files` and `include` selects no source at all |
| TsconfigPatternSelections.SharedConfigSelectsNothing | glass-lint-project/src/discovery.rs:300-317 | In particular a config that extends one in its parent directory, where neither has `files` or `include` |
| TsconfigPatternSelections.SharedConfigExample | glass-lint-project/src/discovery.rs:300-317 | For example one in `/p/c` and one in `/p` |
| TsconfigPatterns.RebasedPatternSelects | glass-lint-project/src/tsconfig/selection.rs:258-266 | A rebased pattern, backslashes or not, selects a file if and only if its target lies below the new directory and what is left of it there matches |
| TsconfigPatterns.GoingUpSelectsNothing | glass-lint-project/src/tsconfig/selection.rs:364-371 | A pattern that starts with a parent step selects no file below the config |
| TsconfigPatterns.AbsoluteSelectsNothing | glass-lint-project/src/tsconfig/selection.rs:364-371 | Nor does an absolute one |
| TsconfigPatterns.InheritedKeepsSelection | glass-lint-project/src/tsconfig/selection.rs:278-282 | Inherited into a directory below, a pattern keeps what it selects there if and only if it leads through that directory and has two components left, or one that matches no more by the file name alone; or it leads elsewhere and selected nothing there |
| TsconfigPatterns.InheritedFromAbove | glass-lint-project/src/tsconfig/selection.rs:364-371 | File by file: what the declaring config selects, and with one component left also what matches by its name alone |
| TsconfigPatterns.InheritedPast | glass-lint-project/src/tsconfig/selection.rs:364-371 | A pattern that does not lead through the directory selects nothing there |
| TsconfigPatterns.InheritedFromBelow | glass-lint-project/src/tsconfig/selection.rs:364-371 | Inherited into a directory above, a pattern selects only within the declaring directory and by the path alone |
| TsconfigPatterns.InheritedAlongside | glass-lint-project/src/tsconfig/selection.rs:374-386 | Inherited within one directory it compiles to the same pattern, also when a backslash changes the path it names |
| TsconfigPatterns.LiteralDirectorySelects | glass-lint-project/src/tsconfig/selection.rs:113-137 | A directory without wildcards, such as an output directory among the exclusions, selects no file below it but one that repeats its name |
| TsconfigPatterns.SlashedDirectorySelects | glass-lint-project/src/tsconfig/selection.rs:374-386 | Behind a slash it selects every file below |
| TsconfigPatterns.DotSelectsNothing | glass-lint-project/src/tsconfig/selection.rs:374-386 | A pattern behind `./` selects nothing in the config that declares it |
| TsconfigPatterns.LawsCanBeMet | glass-lint-project/src/tsconfig/selection.rs:364-371 | The laws assumed of the glob library do not contradict each other |
| TsconfigPaths.RebasePreservesMeaning | glass-lint-project/src/tsconfig/selection.rs:258-266 | Reading the rebased pattern in the new directory means the same path if and only if no component that has to be rendered holds a backslash |
| TsconfigRebaseChains.RebaseComposesExactly | glass-lint-project/src/tsconfig/selection.rs:258-266 | Rebasing in two steps is rebasing in one, whatever the second directory, if and only if the first rebase renders no component with a backslash |
| TsconfigRebaseChains.RebaseDownKeepsMeaning | glass-lint-project/src/tsconfig/selection.rs:46-61 | Rebasing down a chain of any length keeps a pattern's meaning if and only if every step is clean: a target lost once stays lost |
| TsconfigRebaseChains.RebaseDownIsOneRebase | glass-lint-project/src/tsconfig/selection.rs:46-61 | Rebasing down a chain and on to any directory is one rebase if and only if the chain is clean |
| TsconfigPaths.RebaseComposes | glass-lint-project/src/tsconfig/selection.rs:258-266 | The direction that inheritance over several levels uses |
| TsconfigRebaseChains.UncleanDownIsNoRebase | glass-lint-project/src/tsconfig/selection.rs:46-61 | For every other pattern a next directory that shows the difference |
| TsconfigRebaseChains.MissStays | glass-lint-project/src/tsconfig/selection.rs:258-266 | Components that end in one with a backslash and do not begin a pattern's target do not begin the target of any rebase of it |
| TsconfigPaths.BackslashPatternChangesMeaning | glass-lint-project/src/tsconfig/selection.rs:258-266 | A file name with a backslash changes its meaning |
| TsconfigPaths.NoBackslashIsClean | glass-lint-project/src/tsconfig/selection.rs:258-266 | Patterns and directories without backslashes always meet the condition |
| TsconfigPaths.RebasedPatternExpands | glass-lint-project/src/tsconfig/selection.rs:374-386 | A rebased pattern is expanded to everything below it if and only if its last rendered component ends in a backslash, whether the declared pattern was a directory pattern or not |
| TsconfigPaths.DirectorySlashIsLost | glass-lint-project/src/tsconfig/selection.rs:374-386 | `a/` is expanded where it is declared and not after a rebase |
| TsconfigPaths.BackslashKeepsExpansion | glass-lint-project/src/tsconfig/selection.rs:374-386 | A name with a backslash before its slash is still expanded after a rebase |
| TsconfigPaths.BackslashExample | glass-lint-project/src/tsconfig/selection.rs:374-386 | For example `a\/` |
| TsconfigPaths.RebasePathPattern | glass-lint-project/src/tsconfig/selection.rs:258-266 | The loop form computes the rebase that the theorems are about |
| TsconfigPaths.NormalizeSafe | glass-lint-project/src/tsconfig/selection.rs:237-255 | The in-place loop is component-wise resolution: `..` removes a component and never leaves the root |
| TsconfigPaths.MakeRelative | glass-lint-project/src/tsconfig/selection.rs:215-231 | Parent steps out of the base, then the target below the common prefix |
| TsconfigPaths.CountCommon | glass-lint-project/src/tsconfig/selection.rs:218-222 | The length of the longest common prefix |
| ProjectInput.NormalizeOutsideTarget | glass-lint-core/src/project/input.rs:48-88 | The loop over segments computes the function that the laws below determine, with its error cases |
| ProjectInput.ParentCancelsName | glass-lint-core/src/project/input.rs:60-77 | `..` takes away the name in front of it, in rooted, drive and relative paths; a drive prefix in an absolute path is no such name |
| ProjectInput.ParentCancelsFirstName | glass-lint-core/src/project/input.rs:60-77 | A name and its `..` at the start of a relative path come to `.` |
| ProjectInput.ParentOfRootIsDropped | glass-lint-core/src/project/input.rs:60-77 | `..` right behind the root is dropped |
| ProjectInput.ParentOfDriveIsDropped | glass-lint-core/src/project/input.rs:60-77 | So is one behind a drive prefix of an absolute path |
| ProjectInput.SkippedSegment | glass-lint-core/src/project/input.rs:57-60 | An empty segment and a `.` change nothing |
| ProjectInput.TrailingSeparator | glass-lint-core/src/project/input.rs:57-60 | Nor does a separator at the end |
| ProjectInput.NamesAreKept | glass-lint-core/src/project/input.rs:56-80 | Without `..` the segments that name something are all kept, in every class of input |
| ProjectInput.CanonicalStays | glass-lint-core/src/project/input.rs:48-88 | A path to which no law applies is its own target |
| ProjectInput.NormalizeOutsideIsIdempotent | glass-lint-core/src/project/input.rs:48-88 | Normalizing twice is normalizing once |
| ProjectInput.OutputShape | glass-lint-core/src/project/input.rs:56-88 | The output has no empty or `.` segment, no `..` for an absolute input, and otherwise only a leading run of `..`; its segments can be read back |
| ProjectInput.OutputAbsoluteness | glass-lint-core/src/project/input.rs:47-55 | Told from the input's segments: a leading slash stays absolute; a drive stays absolute if and only if a later segment is a drive prefix too or the names and `..` after it do not cancel out; a relative input turns absolute if and only if its running count of names and `..` never falls below zero, ends above one, and the segment it finally starts from is a drive prefix (the doc comment promises to keep absoluteness) |
| ProjectInput.DriveRootLosesAbsoluteness | glass-lint-core/src/project/input.rs:47-55 | The parent of any drive root, `C:/..`, becomes the bare drive `C:` |
| ProjectInput.HiddenDriveGainsAbsoluteness | glass-lint-core/src/project/input.rs:47-55 | `./` in front of any drive path yields an absolute output for a relative input |
| ProjectInput.NormalizeRelativeIdempotence | glass-lint-core/src/project/input.rs:26-45 | Idempotent if and only if the first segment is not a drive prefix with more after it |
| ProjectInput.HiddenDriveIsRefusedLater | glass-lint-core/src/project/input.rs:26-45 | Every drive path behind `./` is accepted once and refused the second time |
| ProjectInput.DriveRootIsRefusedLater | glass-lint-core/src/project/input.rs:26-45 | For example `./C:/x` |
| ProjectInput.NormalizationsAgree | glass-lint-core/src/project/input.rs:26-88 | Where the relative form is accepted, both normalizations agree |
| ProjectLoading.LoadSources | glass-lint-project/src/loader.rs:237-257 | When the frontier closes: every initial file is loaded, and with each file whatever each of its occurrences resolves to as an accepted internal target, told from occurrences, resolver and classification alone; each under its own path with its own text, within the request budget. On any outcome only files are loaded that a chain of imports leads to, each read once, within the file and byte budgets. These are the texts of the least set that contains the initial paths and is closed under imports, whatever the wave size; a failure without a timeout or a failed analysis has its cause among the files of that set |
| ProjectLoading.RequestsAreImports | glass-lint-project/src/loader.rs:281-290 | Following the requests of a file is following all its imports |
| ProjectLoading.ClosureIsLeast | glass-lint-project/src/loader.rs:237-257 | Nothing is in the closure that no chain of imports leads to |
| ProjectLoading.ClosureHoldsImports | glass-lint-project/src/loader.rs:281-290 | With a file the closure holds what its imports resolve to |
| ProjectLoading.AuthoredCounts | glass-lint-project/src/loader.rs:283-292 | A file adds as many requests as it has occurrences |
| ProjectLoading.ClosureIsClosed | glass-lint-project/src/loader.rs:237-257 | That set is itself closed and contains the initial paths |
| ProjectLoading.LoadTwice | glass-lint-project/src/loader.rs:243-249 | Two loads that close the frontier retain the same sources under the same paths, whatever their limits and wave sizes |
| ProjectLoading.ProjectLoadState.RetainsTheClosure | glass-lint-project/src/loader.rs:237-257 | An empty queue means that the whole closure is retained |
| ProjectLoading.KeysAreStable | glass-lint-project/src/loader_phases.rs:61-85 | Within one session an occurrence key determines its specifier, since sources have paths of their own and a range is that of the specifier |
| ProjectLoading.ProjectLoadState.AdmitSources | glass-lint-core/src/project/tables.rs:36-86 | A wave enters the session whole, or not at all when a path would repeat; admitted sources keep paths of their own |
| ProjectLoading.RetainedFromKept | glass-lint-project/src/loader.rs:276-279 | Every retained text is that of a file read under its own project-relative path |
| ProjectLoading.RetainedEntries | glass-lint-project/src/loader.rs:276-279 | Distinct project-relative paths keep every retained file under its own path with its own text |
| ProjectLoading.ProjectLoadState.CloseFrontier | glass-lint-project/src/loader.rs:237-257 | Drains the queue; terminates for any import graph by the remaining file budget |
| ProjectLoading.ProjectLoadState.NextWave | glass-lint-project/src/loader.rs:240-256 | A non-empty wave accepts at least one new file |
| ProjectLoading.ProjectLoadState.TakeWave | glass-lint-project/src/loader.rs:243-249 | The front of the queue, at most a wave of it |
| ProjectLoading.ProjectLoadState.ProcessWave | glass-lint-project/src/loader.rs:259-303 | Retains what was read and follows its imports; on a byte error the files of the wave before the one that does not fit are still retained and followed (the promise of the comment), and that file indeed overflows the budget |
| ProjectLoading.ProjectLoadState.ReadWave | glass-lint-project/src/loader.rs:305-347 | Each accepted path is read once; the bytes read stay within the budget even when the counter passes it; a full file budget drops the wave |
| ProjectLoading.ProjectLoadState.ReadOne | glass-lint-project/src/loader.rs:314-341 | Every outcome exactly: accepted before, file budget full, too large on disk or as read, unreadable, or read; the size is checked before the text is read, and only an oversized file is deferred |
| ProjectLoading.ProjectLoadState.Retain | glass-lint-project/src/loader.rs:276-279 | Retaining a wave extends the retained files by exactly the files read |
| ProjectLoading.ProjectLoadState.ResolveRequests | glass-lint-project/src/loader.rs:359-377 | Every request of the wave has an answer and every internal answer is collected |
| ProjectLoading.ProjectLoadState.EnqueueInternalTarget | glass-lint-project/src/loader.rs:390-408 | An accepted target is seen afterwards, from the cache or freshly classified; any other leaves queue and cache alone, and only a failing classification is an error |
| ProjectLoading.ProjectLoadState.ApplyRequestResolution | glass-lint-project/src/loader.rs:379-388 | All collected accepted targets are seen; nothing waits twice |
| ProjectLoading.ProjectLoadState.CollectTargets | glass-lint-project/src/loader.rs:283-292 | Every accepted import of the files just read is among the targets, and every target leads into the closure; exactly their requests are counted |
| ProjectLoading.ProjectLoadState.ReadAndRetain | glass-lint-project/src/loader.rs:266-279 | A full file budget means more files in the closure than the limit, a byte error a further file that overflows what the retained ones leave |
| ProjectLoading.ProjectLoadState.IncorporateRequests | glass-lint-project/src/loader.rs:283-294 | The imports of the files just read are followed, so the retained set stays closed up to the queue |
| ProjectLoading.ProjectLoadState.CollectedIsFollowed | glass-lint-project/src/loader.rs:359-377 | The cached answer leads where the request's own would |
| ProjectLoading.PathWorkQueue.Push | glass-lint-project/src/loader_phases.rs:27-32 | A path enters the queue only the first time it is seen |
| ProjectLoading.PathWorkQueue.PopFront | glass-lint-project/src/loader_phases.rs:23-25 | First in, first out; a popped path stays seen |
| ProjectLoading.AcceptedPaths.Accept | glass-lint-project/src/boundary.rs:64-71 | New paths are counted against the limit and added; known ones are not charged |
| ProjectLoading.LoadMetrics.AdmitRequests | glass-lint-project/src/loader_metrics.rs:158-171 | The counter is raised before it is checked |
| ProjectLoading.LoadMetrics.AdmitSourceBytes | glass-lint-project/src/loader_metrics.rs:177-190 | The counter is raised before it is checked, so it passes the limit on failure |
| ResolutionCaching.ResolutionCache.ResolveOrGet | glass-lint-project/src/loader_phases.rs:61-85 | Answers from the occurrence table, then from the semantic table, then from the resolver, which is asked about importer, kind and specifier of the request, at most once each; an error changes nothing |
| ResolutionCaching.ResolveSequence | glass-lint-project/src/loader_phases.rs:61-89 | After any request sequence each entry is the resolver's answer to the first request under that key, and the resolver never ran twice on the same question |
| ResolutionCaching.FirstRequestIsEarliest | glass-lint-project/src/loader_phases.rs:68-72 | The request that fixes an entry is the earliest one under that key |
| ResolutionCaching.TransparentExactlyForStableKeys | glass-lint-project/src/loader_phases.rs:61-85 | The cache answers like the resolver, whatever the resolver, if and only if an occurrence key determines its specifier |
| RuleSelecting.SegmentsMeanSelector | glass-lint-core/src/lint/selection.rs:73-85 | The parsed segments match exactly what the selector text means with `*` for any string |
| RuleSelecting.FilledIsMeant | glass-lint-core/src/lint/selection.rs:73-85 | A selector means every text that puts some string in place of each `*` |
| RuleSelecting.MeantIsFilled | glass-lint-core/src/lint/selection.rs:73-85 | And no other |
| RuleSelecting.LeftmostSuffices | glass-lint-core/src/lint/selection.rs:103-107 | Taking the leftmost occurrence of a literal loses no match |
| RuleSelecting.Matches | glass-lint-core/src/lint/selection.rs:87-110 | Greedy matching decides the declarative meaning of a pattern |
| RuleSelecting.ParsePattern | glass-lint-core/src/lint/selection.rs:62-85 | A pattern parses exactly when it is well formed, into the segments of its parts |
| RuleSelecting.ParsedIsWellFormed | glass-lint-core/src/lint/selection.rs:62-85 | Parsed patterns alternate as the matcher expects |
| RuleSelecting.ParseSelector | glass-lint-core/src/lint/selection.rs:182-202 | A selector parses exactly when it is a rule id or a valid wildcard pattern without forbidden characters |
| RuleSelecting.SelectorMatches | glass-lint-core/src/lint/selection.rs:212-220 | A parsed selector matches exactly the ids it means |
| RuleSelecting.EvaluateRule | glass-lint-core/src/lint/selection.rs:338-349 | A rule is enabled as its last matching override says, else as the baseline says |
| RuleSelecting.VerdictOnRule | glass-lint-core/src/lint/selection.rs:338-349 | The last override whose selector means the rule decides; without one a minimum of high enables high confidence alone, medium all but low, and low all |
| RuleSelecting.StricterEnablesFewer | glass-lint-core/src/api/rule/taxonomy.rs:29-39 | A stricter minimum enables a part of what a weaker one does, whatever the overrides |
| RuleSelecting.LastOverrideDecides | glass-lint-core/src/lint/selection.rs:344-349 | One more override changes the verdict only if it applies |
| RuleSelecting.Evaluate | glass-lint-core/src/lint/selection.rs:332-359 | The enabled rules, ascending, as the last meaning override or the baseline says, and exactly the overrides whose selector means some rule |
| RuleSelecting.ValidateOverrideMatches | glass-lint-core/src/lint/selection.rs:361-378 | Succeeds if and only if every override matched; otherwise names the first that did not, by its kind |
| RuleSelecting.Resolve | glass-lint-core/src/lint/selection.rs:319-378 | Resolving succeeds if and only if every override's selector means some rule; otherwise it names the first that means none, by its kind |
| ParentLinkedHistories.ParentLinkedHistory.Transition | glass-lint-datastructures/src/history.rs:90-133 | The log, step by step: with `shared` positions common to both paths and no more, first the undos of the other positions of the source path, the deepest first, then the redos of the other positions of the target path, the deepest last, and nothing else; staying emits nothing, going to an ancestor no redo, coming from one no undo; an unknown target changes nothing |
| ParentLinkedHistories.TransitionLogCrosses | glass-lint-datastructures/src/history.rs:86-133 | The specified log consists of exactly the steps between the two positions |
| ParentLinkedHistories.ParentLinkedHistory.Record | glass-lint-datastructures/src/history.rs:66-76 | Extends the cursor's path by the new entry and leaves the path of every older position alone |
| ParentLinkedHistories.TransitionReplaysTarget | glass-lint-datastructures/src/history.rs:86-133 | Whenever undo inverts redo, the emitted steps turn the replay of the source path into the replay of the target path |
| ParentLinkedHistories.NoEntryTwice | glass-lint-datastructures/src/history.rs:90-133 | Behind an undo and a redo of such a log stand different entries, the one on the source path alone, the other on the target path alone |
| ParentLinkedHistories.Run | glass-lint-datastructures/src/history.rs:59-133 | After any run of records and moves the caller's state is that of a caller who keeps every state, and from there a transition to any position restores the state recorded at it |
| ParentLinkedHistories.Execute | glass-lint-datastructures/src/history.rs:66-133 | Each command keeps that correspondence, for every position recorded so far |
| ParentLinkedHistories.CheckpointsKeepTheirState | glass-lint-datastructures/src/history.rs:59-76 | One more recorded entry changes the replay of no earlier position |
| ParentLinkedHistories.PathsSurvive | glass-lint-datastructures/src/history.rs:66-76 | Recording changes no existing path |
| ParentLinkedHistories.ParentLinkedHistory.CommonAncestor | glass-lint-datastructures/src/history.rs:99-111 | The climbing loops meet at the last shared position of both paths |
| ParentLinkedHistories.ParentLinkedHistory.ClimbTo | glass-lint-datastructures/src/history.rs:113-118 | The undo loop emits the source branch, deepest first |
| ParentLinkedHistories.ParentLinkedHistory.CollectForward | glass-lint-datastructures/src/history.rs:120-126 | The collecting loop finds the target branch, deepest first |
| ParentLinkedHistories.ParentLinkedHistory.Descend | glass-lint-datastructures/src/history.rs:127-129 | The redo loop emits the target branch, deepest last |
| ParentLinkedHistories.MeetAbove | glass-lint-datastructures/src/history.rs:99-111 | Two paths share a position only at the same depth and within their common prefix |
| PathTrie.PathStore.HandlesAreCanonical | glass-lint-datastructures/src/path_trie/store.rs:76-117 | Two handles are equal if and only if they stand for the same path |
| PathTrie.MeaningIsCanonical | glass-lint-datastructures/src/path_trie/store.rs:103-117 | There is one node for each path |
| PathTrie.HandlesSurvive | glass-lint-datastructures/src/path_trie/store.rs:103-117 | Growing the store changes no earlier handle's meaning |
| PathTrie.PathStore.StartsWith | glass-lint-datastructures/src/path_trie/store.rs:134-152 | Holds if and only if both paths have the same root and one is a prefix of the other |
| PathTrie.PathStore.CollectSegments | glass-lint-datastructures/src/path_trie/store.rs:189-202 | The segment sequence of a locally rooted path; nothing for linked or foreign ones |
| PathTrie.PathStore.FirstSegmentOf | glass-lint-datastructures/src/path_trie/store.rs:162-174 | The first segment, exactly for non-empty locally rooted paths |
| PathTrie.PathStore.Append | glass-lint-datastructures/src/path_trie/store.rs:76-82 | The handle of `parent`'s segments and one more, exactly when it has a node already or the store is below its node limit and 32 bits of nodes and the parent lies less than 32 bits deep; at most one node is added and every meaning is kept |
| PathTrie.PathStore.AppendLinked | glass-lint-datastructures/src/path_trie/store.rs:96-101 | The same below a path of another store, whose depth the link carries |
| PathTrie.PathStore.AppendNode | glass-lint-datastructures/src/path_trie/store.rs:103-117 | A node is added exactly below the node limit, with an index and a depth of 32 bits |
| PathTrie.PathStore.Link | glass-lint-datastructures/src/path_trie/store.rs:85-91 | A link exists exactly for valid handles and carries their depth |
| PathTrie.PathStore.Concat | glass-lint-datastructures/src/path_trie/store.rs:228-245 | Yields the concatenation; an existing one adds no node; failure means a full store or a depth overflow; meanings are kept even then |
| PathTrie.PathStore.WithoutFirst | glass-lint-datastructures/src/path_trie/store.rs:223-269 | Yields a handle if and only if a node for the tail exists below the empty path, and then that one |
| PathTrie.PathStore.SegmentsBelowTop | glass-lint-datastructures/src/path_trie/store.rs:247-262 | The climb stops below the empty path, this store's or a linked one |
| PathTrie.PathStore.Descend | glass-lint-datastructures/src/path_trie/store.rs:263-268 | A path is found edge by edge if and only if it has a node |
| EvidenceTraces.TraceArena.InternChain | glass-lint-core/src/analysis/trace.rs:120-129 | A returned head stands for exactly the given steps; failure of a non-empty chain marks the arena exhausted and means it is full; every earlier head keeps its trace |
| EvidenceTraces.TraceArena.Intern | glass-lint-core/src/analysis/trace.rs:88-117 | The node below a parent, exactly when it exists or the arena is below its limit and 32 bits of nodes; every refusal, foreign parents included, latches exhaustion |
| EvidenceTraces.TraceArena.ReconstructTrace | glass-lint-core/src/analysis/trace.rs:166-176 | The whole chain of exactly the arena's own handles, so reconstructing inverts interning |
| EvidenceTraces.TraceArena.HeadsAreCanonical | glass-lint-core/src/analysis/trace.rs:88-117 | Equal heads if and only if equal traces |
| EvidenceTraces.InternAll | glass-lint-core/src/analysis/trace.rs:120-176 | Over any run of chains, exhausted or not, heads name exactly their chains and are equal exactly for equal chains |
| EvidenceTraces.HeadSurvives | glass-lint-core/src/analysis/trace.rs:110-117 | Later nodes leave a trace alone |
| EvidenceTraces.TraceIsCanonical | glass-lint-core/src/analysis/trace.rs:98-117 | There is one node for each chain |
| EvidenceTraces.TraceArena.InternLifecycleTrace | glass-lint-core/src/analysis/trace.rs:141-162 | Step by step: the source, each requirement, each prior sink in the given role, the terminal sink |
| EvidenceTraces.LifecycleTracesTell | glass-lint-core/src/analysis/trace.rs:141-162 | A lifecycle trace determines its parts, except that requirements and prior sinks run together when both carry the requirement role |
| SourceLines.SourceLineIndex.PositionOf | glass-lint-core/src/diagnostic.rs:136-166 | The ASCII shortcut, the binary search and the checkpoints give one more than the newlines and one more than the characters since the last newline in front of the offset, or none when that does not fit 32 bits |
| SourceLines.PositionCounts | glass-lint-core/src/diagnostic.rs:136-166 | Counting by hand gives one more than the newlines so far, and one more than the characters since the last |
| SourceLines.EncodesByTable | glass-lint-core/src/diagnostic.rs:90-95 | The bytes of a character are those of the table in section 3 of RFC 3629, no longer than needed |
| SourceLines.SourceLineIndex.TryRange | glass-lint-core/src/diagnostic.rs:172-224 | Both error cases exactly; for sources of the accepted size it fails only for ranges out of bounds or inside a character |
| SourceLines.PositionsIncrease | glass-lint-core/src/diagnostic.rs:136-170 | Positions strictly increase over boundaries, so none is shared and no range comes out reversed |
| SourceLines.WalkCountsCharacters | glass-lint-core/src/diagnostic.rs:146-158 | Counting non-continuation bytes is counting characters (section 3 of RFC 3629) |
| SourceLines.BoundaryEndsPrefix | glass-lint-core/src/diagnostic.rs:183-185 | A character boundary of the bytes is the end of a prefix of the text |
| SourceLines.PrefixEndsAtBoundary | glass-lint-core/src/diagnostic.rs:183-185 | And the end of every prefix is a boundary |
| SourceLines.LeadWithinFour | glass-lint-core/src/diagnostic.rs:90-95 | No four continuation bytes in a row, which keeps checkpoints close to their markers |
| SourceLines.FindStarts | glass-lint-core/src/diagnostic.rs:102-114 | Line starts are the offsets after each newline, all of them character boundaries with column one |
| SourceLines.CheckpointLine | glass-lint-core/src/diagnostic.rs:80-97 | Lines under 256 bytes have none; others have one at the first character of every 256 bytes with the right count |
| SourceLines.LastPassed | glass-lint-core/src/diagnostic.rs:151-156 | The search leaves less than one interval and one character to scan |
| SourceLines.PartitionPoint | glass-lint-core/src/diagnostic.rs:138-141 | Binary search for the number of leading elements that satisfy a monotone condition |
| SourceLines.SourceLineIndex.Column | glass-lint-core/src/diagnostic.rs:144-159 | The three ways to a column agree on the number of characters since the line start, and every slice is on boundaries |
| HostEnvironments.FingerprintsIdentify | glass-lint-core/src/environment.rs:43-75 | Two environments write the same bytes if and only if they are equal |
| HostEnvironments.InnerReads | glass-lint-core/src/environment.rs:43-75 | A decoder recovers bindings and objects from the bytes, whatever is written after them |
| HostEnvironments.Environment.WriteFingerprintBytes | glass-lint-core/src/environment.rs:62-75 | Appends exactly the environment's bytes, sets in ascending order |
| HostEnvironments.Environment.WriteMembers | glass-lint-core/src/environment.rs:44-57 | Tag 0 alone, or tag 1 with the counted names |
| HostEnvironments.FingerprintOfOne | glass-lint-core/src/environment.rs:43-75 | The bytes of an environment of one binding and object, byte for byte |
| HostEnvironments.InOrder | glass-lint-core/src/environment.rs:65-74 | Walking a sorted set takes the least name left each time |
| HostEnvironments.ListingAscends | glass-lint-core/src/environment.rs:59-61 | The written order is strictly ascending in bytes |
| HostEnvironments.LessIsLexicographic | glass-lint-core/src/environment.rs:59-61 | The order is that of the first byte that differs, a proper prefix first |
| HostEnvironments.ValidatedIdentifier | glass-lint-core/src/environment.rs:144-159 | Succeeds exactly for identifiers, whose bytes hold no NUL |
| HostEnvironments.Environment.ValidatedIdentifiers | glass-lint-core/src/environment.rs:161-170 | All names or an error |
| HostEnvironments.Environment.AddGlobals | glass-lint-core/src/environment.rs:207-215 | All bindings are added, or none when one is invalid |
| HostEnvironments.Environment.AddGlobal | glass-lint-core/src/environment.rs:200-204 | One binding is added, or nothing changes |
| HostEnvironments.Environment.AddGlobalObject | glass-lint-core/src/environment.rs:221-225 | A binding and its full object are added together |
| HostEnvironments.Environment.AddGlobalObjectWithMembers | glass-lint-core/src/environment.rs:233-246 | A binding and its restricted object are added together, or nothing changes |
| HostEnvironments.Environment.Extend | glass-lint-core/src/environment.rs:251-276 | The in-place loop computes the merge of both environments and keeps them sound |
| HostEnvironments.MergeIsSemilattice | glass-lint-core/src/environment.rs:248-276 | Merging is commutative, associative and idempotent, so provider order does not matter |
| HostEnvironments.MergeKeepsPromotions | glass-lint-core/src/environment.rs:294-300 | A promoted member stays promoted after a merge unless a restricted object meets a full one and the member is no binding (the doc comment calls the union additive) |
| HostEnvironments.MergeAddsNothing | glass-lint-core/src/environment.rs:251-276 | What is promoted after a merge was promoted before, or is a binding below a full object of one of the two |
| HostEnvironments.MergeCanDropAMember | glass-lint-core/src/environment.rs:248-276 | A concrete merge that loses a member |
| SyntaxDepth.DepthScanner.Scan | glass-lint-core/src/parse/depth.rs:64-81 | Reports excess exactly when a delimiter opens over the limit, and otherwise the maximum that `StreamMaximum` and `LongestChainIsStretch` determine, over the tokens up to the first lexer error |
| SyntaxDepth.StreamMaximum | glass-lint-core/src/parse/depth.rs:116-166 | Every stream, balanced or not, reads as groups of written-out pairs of delimiters with tokens in them that close nothing, and its maximum is how deep they nest or its longest chain |
| SyntaxDepth.StreamDepth | glass-lint-core/src/parse/depth.rs:116-166 | Any reading of a stream goes exactly as deep as its groups nest and, unless one is still open, leaves the open delimiters as they were; a closing delimiter of another kind is ignored |
| SyntaxDepth.EveryStreamReads | glass-lint-core/src/parse/depth.rs:116-166 | Up to its end or to the token that closes the group it stands in, a stream reads as groups |
| SyntaxDepth.LongestChainIsStretch | glass-lint-core/src/parse/depth.rs:136-140 | Some stretch without an operator or separator has as many `.` and `?.` as the longest chain |
| SyntaxDepth.NoLongerStretch | glass-lint-core/src/parse/depth.rs:136-140 | No such stretch has more |
| SyntaxDepth.SkippedIsUnseen | glass-lint-core/src/parse/depth.rs:64-81 | Skipped tokens are not seen |
| SyntaxDepth.SeenUpToError | glass-lint-core/src/parse/depth.rs:64-81 | Nor is anything behind the first lexer error |
| SyntaxDepth.DepthScanner.Observe | glass-lint-core/src/parse/depth.rs:116-148 | Keeps depth equal to the delimiter stack and the maximum equal to its definition |
| SyntaxDepth.DepthScanner.PushDelimiter | glass-lint-core/src/parse/depth.rs:150-158 | Raises the depth and its maximum before the check |
| SyntaxDepth.DepthScanner.PopDelimiter | glass-lint-core/src/parse/depth.rs:160-166 | Only the matching delimiter closes |
| SyntaxDepth.MaximumWithinRawBound | glass-lint-core/src/parse/depth.rs:168-177 | The maximum never exceeds the raw bound, for tokens over disjoint slices that hold their own character: a parenthesis, a bracket, a brace, a dot |
| SyntaxDepth.RawBoundCounts | glass-lint-core/src/parse/depth.rs:168-177 | The raw bound is the number of `(`, `[`, `{` and `.` bytes |
| SyntaxDepth.LateCheckNeverExceeds | glass-lint-core/src/parse.rs:354-380 | The post-parse check never reports excess |
| SyntaxDepth.CheckBeforeParse | glass-lint-core/src/parse.rs:364-371 | Scans only in the pre-parse phase |
| SyntaxDepth.CheckAfterParse | glass-lint-core/src/parse.rs:373-380 | Scans only in the post-parse phase |
| SyntaxDepth.ReadingMaximum | glass-lint-core/src/parse/depth.rs:116-166 | The maximum of a stream is how deep its groups nest, or its longest chain, however it reads |
| SyntaxDepth.ExcessiveNesting | glass-lint-core/src/parse/depth.rs:116-166 | Without member separators excess means nesting over the limit |
| SyntaxDepth.ExcessIsAtTheLastOpening | glass-lint-core/src/parse/depth.rs:136-139 | A stream passes exactly when its maximum up to the last opening delimiter is within the limit |
| SyntaxDepth.LongChainPasses | glass-lint-core/src/parse/depth.rs:136-139 | A chain of `.` and `?.` counts each of them and passes at any length by itself |

## Left out

- BatchDriver: `cancel` on drop, `size_hint` and the options of a batch; indexes do not wrap, so the saturating counters are plain numbers.
- Workers: the thread pool and the channel are nondeterministic steps, not modelled in their own code; a worker's panic is an ordinary lint result.
- ReferenceWalk.WalkReferences: the deadline and the byte budget appear as a possible interruption of any build, and every read error as one outcome; diagnostics are values, not texts.
- ReferenceWalk.WalkReferences: a config's base directory is that of its canonical path, for the root config as well.
- TsconfigInheritance: JSON parsing and the resolution of an `extends` specifier to a file are parameters.
- TsconfigPatterns: the glob library decides which patterns compile and what they match; what is proved about selections assumes only that a pattern without wildcards matches itself, that a directory without wildcards in front of a pattern stands for itself, and that the default pattern matches everything.
- TsconfigPatternSelections: files whose names turn into `.`, `..` or empty components when backslashes are read as slashes are left aside; rebases above the last one must be clean.
- TsconfigMembership: existence, classification and the directory walk are functions of the path, so their errors and the file budget do not stop a selection here; the exclusions are characterised as a set, their order is not.
- MergedSelection: consumed by value in the source, so it is a value with functions here rather than a class.
- TsconfigPaths: component rules are those of POSIX; drive letters and UNC prefixes of other systems are not modelled.
- ProjectLoading: reading, analysis, classification and resolution are functions of the path, so files do not change during a load; timeouts may strike at any of their checks; the order of sources handed to linking is not modelled.
- ProjectLoading.RequestsOf: a range of one source holds one specifier, because recognized requests carry the span of the specifier itself; the recognition is a parameter.
- ProjectLoading.LoadMetrics: counters are unbounded, so their overflow errors do not occur; timings are left out.
- ResolutionCaching: the resolver itself is any function of importer, kind and specifier.
- RuleSelecting: serialization and the catalog's own lookups; the state of an override is a boolean.
- ParentLinkedHistories: cursors are indexes of this history, as the source's own constructor leaves them; a cursor of another history is not told apart.
- PathTrie: store numbers never wrap around, and a handle that carries a store's number was given out by it; segment names are numbers.
- PathTrie.PathStore: iterators over collected segments and the reused buffer of a concatenation.
- EvidenceTraces: module and fact ids are numbers; arena numbers never wrap around.
- SourceLines: the index works on the bytes of a given text; reading and decoding files is left out.
- HostEnvironments: the identifier rules of JavaScript are parameters, apart from NUL being part of no identifier; the list of standard globals is a parameter; the hash over the bytes is left out.
- HostEnvironments: matching of name paths against global objects.
- SyntaxDepth: the regular-expression recovery of the source scan decides which tokens are skipped, so skipped tokens are given; the lexer is left out, and operators are one kind of token.
- SyntaxDepth.LateCheckNeverExceeds: rests on tokens covering disjoint slices that hold their own delimiter or dot, which is the lexer's business.
- Parsing, scope and flow analysis, reports, the command line and rule catalogs.
