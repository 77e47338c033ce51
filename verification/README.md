# A verified model of the CircleCI YAML language server

The language server keeps a copy of every document the editor has open, recomputes diagnostics in the
background, looks for cycles among the jobs of a workflow, flattens YAML merge keys, honours
`# cci-ignore` comments and offers quick fixes that insert them. This project models those algorithms
and state machines in Dafny and proves what they guarantee, for all inputs, all runs and all
interleavings. `dafny verify dfyconfig.toml` checks everything.

| file | what it models |
|---|---|
| `Positions.dfy` | byte offsets and (line, character) positions |
| `IncrementalSync.dfy` | the document cache, `didOpen` and `didChange`, against a client that edits lines |
| `Publication.dfy` | handlers, debouncing and background diagnostics as a step protocol |
| `Graphs.dfy`, `JobGraph.dfy` | the job graph, Kahn's algorithm, and the cycle report |
| `MergeKeys.dfy` | iteration over mappings with `<<: *alias` |
| `Suppression.dfy`, `QuickFixes.dfy` | the cci-ignore scanner, and the fixes that insert its comments |
| `ContextIndex.dfy` | organisation contexts and their index by short name |
| `SemanticTokens.dfy` | the delta encoding of semantic tokens |
| `Versions.dfy` | orb version selection and diagnosis |
| `DockerSearch.dfy` | the paged Docker Hub search |
| `Common.dfy` | what several modules share |

Code that changes state step by step is modelled by methods and classes, each proved against a
function or predicate; the properties are lemmas about those. A loop over a Go map takes its next key
with `:|`, so what is proved holds for every iteration order. Positions, lines and token fields are
unsigned 32-bit numbers; where wrap-around can happen it is modelled. A char stands for one byte.

## Where the code is weaker than it looks

Each of these is proved, together with the exact condition under which the code does meet the
expectation.

- A column past the end of its line runs on into the next line on the server; both sides read a
  position alike exactly when its column fits or its line is the last (`OffsetsAgree`).
- The version check before publishing is enough for every interleaving exactly when no version of a
  file is stored twice with another text in between (`NoStalePublication`). Reopening a file under its
  old version with another text is enough to break it (`ReopenedIsStale`). It guards the check only:
  the last diagnostics a client receives are of the current text in every interleaving exactly when no
  file ever had a text other than its last (`LastWordIsCurrentIff`).
- One debounce timer serves all files: a document that an edit stored is sure to be diagnosed exactly when
  no later edit, of any file, follows it (`AlwaysSentIff`).
- The jobs reported are those whose job name lies behind a cycle of step names (`CycleReport`), so a
  cycle of renamed steps is noticed exactly when some job is named as a step behind it (`ReportExact`).
- The order of a merge list decides nothing: any merged anchor that defines a key may win. All iteration
  orders agree on a key exactly when only one definition of it can win (`AgreeIffOneWinner`,
  `OrderIrrelevantIff`), which the chains of merges decide (`SeenIffWins`). An unknown anchor can hide
  all others (`UnknownAnchorMayHideAll`): a key is seen in every iteration order exactly when a chain of
  merges reaches a definition of it past mappings that merge known anchors only
  (`AlwaysSeenIffReliable`).
- The iteration ends in every order exactly when no chain of merges comes back to an anchor
  (`IterateOnBlockMapping`, `EndlessIffLoop`). With such a chain some order never ends; another may, when
  an unknown anchor comes up first, and none does when all anchors are known (`TerminatesIffLoopFree`).
- "Ignore this range" can take the suppression from lines (`IgnoreRangeKeepsIff`). With a line behind the
  range it takes none from the lines up to the last of the range, and behind it exactly from those that
  only a next-line marker on the last line, or a range reaching out of the wrapped lines or past them,
  suppressed before (`LosesIffUncovered`, `RangeFixKeepsIff`, `RangeFixMayUncover`). For a range that ends
  on the last line of the document the closing comment is appended to that line and can spoil a marker
  it holds (`RangeAtEndMayUncover`); if it spoils none, only the first line can lose its suppression, and
  exactly when that came from a next-line marker and the range does not suppress it (`LostAtEndOnlyFirst`).
- "Ignore this range" suppresses more than asked when an earlier range was left open, and less when the
  wrapped lines hold an end marker (`RangeEffect`). For a range that ends on the last line, its first line
  is suppressed exactly when that line with the closing comment appended reads as an end marker (a blank
  one does) or a file marker, or the lines before hold a file marker, an end marker behind the first
  line, or the first line an inline one (`IgnoreRangeWorks`, `RangeAtEndMayFail`).
- A context with a plain name is lost to a later qualified one exactly when that carries its name and the
  name was not ambiguous before (`PlainContextKept`).
- A removed context goes on counting for its short name. Its full name still resolves exactly when one
  context with that last segment was ever set, and then to that one, so removing the only one has no
  effect (`RemovedStillResolves`, `OnlyContextOutlivesRemoval`).

## Model

| member | source | states |
|---|---|---|
| Positions.IndexToPos | pkg/utils/indexToPos.go:7-21 | the position of an offset counts the line breaks before it and the bytes since the last one, each modulo 2^32; a negative index is read as 0 |
| Positions.PosToIndex | pkg/utils/indexToPos.go:23-43 | the offset is the start of the line plus the column, clamped to the end of the content and never past it |
| Positions.RoundTripIndex | pkg/utils/indexToPos.go:7-43 | converting an offset to a position and back gives the offset if and only if neither 32-bit counter wrapped around |
| Positions.RoundTripIndexSmall | pkg/utils/indexToPos.go:7-43 | for content shorter than 2^32 bytes every offset survives the round trip |
| Positions.RoundTripPosition | pkg/utils/indexToPos.go:7-43 | converting a position to an offset and back gives the position if and only if its line exists and is that long |
| Positions.OrderPreserved | pkg/utils/indexToPos.go:23-43 | on existing positions PosToIndex is strictly monotone for the lexicographic order, in both directions |
| Positions.PositionAfterSplice | pkg/server/methods/synchronize.go:156-164 | after an edit every surviving offset keeps what follows it, its line moves by the net number of line breaks, and its column changes only on the line where the edit ended |
| IncrementalSync.FileCache.SetFile | pkg/utils/cache.go:101-106 | the entry is stored under the URI of its document, and no other document changes |
| IncrementalSync.FileCache.GetFile | pkg/utils/cache.go:108-112 | an entry is found if and only if the URI has a document, and it is the shared entry that holds that document |
| IncrementalSync.FileCache.UpdateTextDocument | pkg/utils/cache.go:147-154 | exactly one document is replaced, in place; its project and variables stay |
| IncrementalSync.Methods.SetChangeInFileCache | pkg/server/methods/synchronize.go:18-26 | whether or not the file was cached, exactly its document is replaced |
| IncrementalSync.Methods.ApplyIncrementalChanges | pkg/server/methods/synchronize.go:152-167 | the changes of a batch are applied one after the other, each to the result of the one before |
| IncrementalSync.Methods.DidOpen | pkg/server/methods/synchronize.go:28-34 | the cache afterwards is that of the request semantics the replica theorem is about |
| IncrementalSync.Methods.DidChange | pkg/server/methods/synchronize.go:67-78 | the cache afterwards is that of the request semantics the replica theorem is about |
| IncrementalSync.SplitJoins | pkg/server/methods/synchronize.go:152-167 | any text is its lines joined by line breaks, and its lines hold none |
| IncrementalSync.JoinSplits | pkg/server/methods/synchronize.go:152-167 | lines can be read back from the text they are joined to |
| IncrementalSync.OffsetsAgree | pkg/utils/indexToPos.go:23-43 | the server finds the offset an LSP client means if and only if the column fits its line or the line is the last |
| IncrementalSync.ChangeAgrees | pkg/server/methods/synchronize.go:156-164 | splicing bytes gives the joined lines of a client that replaces a range in an array of lines |
| IncrementalSync.BatchKeepsReplica | pkg/server/methods/synchronize.go:152-167 | a whole batch, each change relative to the result of the one before, keeps text and lines equal |
| IncrementalSync.ReplicaAgreement | pkg/server/methods/synchronize.go:28-86 | after every session of opens and edits over any number of files, the cache holds for every file exactly the client's lines joined, under the client's version, and they can be read back |
| IncrementalSync.LastVersionCached | pkg/server/methods/synchronize.go:72-78 | after every session a file is cached under the version of the last request for it |
| IncrementalSync.LongColumnDiverges | pkg/utils/indexToPos.go:37-42 | one document and one edit whose column runs past a line that is not the last, on which server and client differ |
| Publication.StepKeepsInv | pkg/server/methods/synchronize.go:28-140 | every step keeps the cache equal to the last document stored per file, and every read, passed check and publication traceable to stored documents |
| Publication.RunKeepsInv | pkg/server/methods/synchronize.go:28-140 | that holds in every state of every interleaving |
| Publication.FreshWithoutConflict | pkg/server/methods/synchronize.go:117-128 | without a version conflict, what passes the check was computed from the text cached at the check, and all that is ever published belongs to the document its worker was started for |
| Publication.ConflictBreaksSomeRun | pkg/server/methods/synchronize.go:111-128 | from any version conflict, a schedule of the same requests is constructed in which a stale result passes |
| Publication.NoStalePublication | pkg/server/methods/synchronize.go:111-128 | every interleaving is fresh if and only if the documents stored have no version conflict |
| Publication.ReopenedIsStale | pkg/server/methods/synchronize.go:88-109 | closing a file that is no orb, which leaves it cached, and reopening it under the same version with another text is a session with a stale result in some interleaving |
| Publication.DocumentsFollowRequests | pkg/server/methods/synchronize.go:28-78 | each request stores one document under its own URI and version: the one opened, or the last one of the file with the changes applied |
| Publication.IncreasingVersionsAreFresh | pkg/server/methods/synchronize.go:121-128 | when the versions in the requests increase per file, after every change and across reopening, every interleaving is fresh |
| Publication.LastWordIsCurrentIff | pkg/server/methods/synchronize.go:111-128 | for any requests, the last diagnostics sent for every file are of its current text in every interleaving, or in every one in which nothing is left to do, if and only if no file was stored with a text other than its last |
| Publication.OutdatedLastWord | pkg/server/methods/synchronize.go:119-128 | from any outdated text, a schedule of the same requests is constructed that settles with diagnostics of it as the last word |
| Publication.LastWordMayBeOld | pkg/server/methods/synchronize.go:119-128 | for every document and every edit that changes its text, opening it and editing it is such a session |
| Publication.CurrentIsSent | pkg/server/methods/synchronize.go:111-140 | with increasing versions, once nothing is left to do, the diagnostics of every cached document that background work was started for have been sent, in every interleaving |
| Publication.AwaitedIsSent | pkg/server/methods/synchronize.go:28-86 | with increasing versions, once nothing is left to do, the diagnostics of every current document that was opened or stored by the last edit have been sent, in every interleaving |
| Publication.AlwaysSentIff | pkg/server/methods/synchronize.go:65-84 | and of a current document they are sent in every interleaving that settles if and only if it was opened or stored by the last edit |
| Publication.RefreshedIsSent | pkg/server/methods/synchronize.go:54-63 | a refresh starts work on the document it finds, and its diagnostics are sent if it stays current |
| Graphs.BackwardClosedIsDownstream | pkg/parser/validate/cycles.go:40-46 | in a finite set where every node has a parent in the set, every node is reachable from a cycle |
| Graphs.TopologicalNotDownstream | pkg/parser/validate/cycles.go:25-38 | no node of a parents-first order is reachable from a cycle |
| JobGraph.CountInDegrees | pkg/parser/validate/cycles.go:4-12 | every node gets a counter, equal to the number of edges into it with multiplicity |
| JobGraph.ReadyNode | pkg/parser/validate/cycles.go:25-31 | the node at the head of the queue was not visited before, all its parents were, and its children are other unvisited nodes |
| JobGraph.Visit | pkg/parser/validate/cycles.go:31-37 | after a visit the counters again equal the edges from unvisited nodes, and the queue holds, once each, exactly the unvisited nodes without such edges |
| JobGraph.IsValidDAG | pkg/parser/validate/cycles.go:3-47 | the nodes returned are, once each, exactly those reachable from some cycle; all others were visited once, parents first; for every graph and iteration order |
| JobGraph.BuildJobsDAG | pkg/parser/job_invocation.go:313-321 | each required name maps to the steps that require it, in order and as often as they list it; no other key exists |
| JobGraph.EdgeIsRequirement | pkg/parser/job_invocation.go:313-321 | the edges of the graph are exactly the requirements of the invocations |
| JobGraph.DependentsInOrder | pkg/parser/job_invocation.go:315-318 | the steps that require a name are listed in the order of the invocations, each as often as it lists the name |
| JobGraph.CyclesCorrespond | pkg/parser/job_invocation.go:313-321 | the graph has a cycle if and only if the requirements do |
| JobGraph.Validate.ValidateDAG | pkg/parser/validate/job_invocation.go:311-323 | exactly one diagnostic is added for each invocation whose job name is reachable from a cycle, and nothing changes if there is none |
| JobGraph.ReportsSay | pkg/parser/validate/job_invocation.go:316-320 | each invocation is reported for itself, once, at its job name, with the message that the job is part of a cycle |
| JobGraph.CycleReport | pkg/parser/validate/job_invocation.go:311-323 | exactly the jobs whose job name a chain of requirements leads to from a cycle are reported; nothing is reported if and only if no job name is such |
| JobGraph.ReportExact | pkg/parser/validate/job_invocation.go:311-323 | something is reported exactly for cyclic lists if and only if the list is not cyclic or some job is named as a step behind a cycle, which holds when no step is renamed |
| JobGraph.ValidateJobInvocations | pkg/parser/validate/workflow.go:26-26 | building the graph and validating it adds one diagnostic for each job named behind a cycle of requirements; when no step is renamed, none if and only if the requirements have no cycle |
| JobGraph.RenamedStepsAreSilent | pkg/parser/validate/job_invocation.go:316-316 | when no job name is a step name, nothing is reported whatever the requirements |
| JobGraph.RenamedCycleExists | pkg/parser/job_invocation.go:317-317 | two renamed jobs that require each other form such an unreported cycle |
| MergeKeys.ExtractMergeAnchorNames | pkg/parser/utils.go:289-321 | the names collected from a merge value, in order |
| MergeKeys.NamesAreAliases | pkg/parser/utils.go:289-321 | a name is collected if and only if an alias of that name occurs in the value, at any depth of listing |
| MergeKeys.NamesInOrder | pkg/parser/utils.go:289-321 | lists are read from left to right, and an alias gives its own name |
| MergeKeys.OwnAreEntries | pkg/parser/utils.go:230-250 | the own entries are the pairs with another key than `<<`, each once, in the order of the mapping, with key and value |
| MergeKeys.MergesAreMentioned | pkg/parser/utils.go:241-250 | an anchor is merged if and only if an alias of it occurs, at any depth of listing, in the value of one of the mapping's merge keys |
| MergeKeys.IterateOnBlockMapping | pkg/parser/utils.go:218-287 | terminates when no chain of merges returns to an anchor, with a recursion depth of at most the number of anchors plus one, and calls back with the own entries first and then with no key a second time, as one of the executions characterised below |
| MergeKeys.OwnFirstThenNewKeys | pkg/parser/utils.go:230-286 | the callback sees all own entries first, in order, then no own key again and each inherited key once |
| MergeKeys.KeySetIsUnion | pkg/parser/utils.go:218-287 | with all anchors known, the keys seen are the transitive union of the keys merged, in every iteration order |
| MergeKeys.SeenIffWins | pkg/parser/utils.go:253-286 | a definition can be the one seen for its key if and only if a chain of merges leads to it past mappings that do not define the key |
| MergeKeys.EndlessIffLoop | pkg/parser/utils.go:257-285 | with any anchors, some iteration order recurses without end if and only if a chain of merges comes back to an anchor |
| MergeKeys.HeightFits | pkg/parser/utils.go:257-285 | when no chain of merges comes back to an anchor, no execution is deeper than the number of anchors plus one, known or not |
| MergeKeys.TerminatesIffLoopFree | pkg/parser/utils.go:257-285 | with all anchors known, any order at all ends if and only if no chain of merges comes back to an anchor, and then every order does, at a depth of at most the number of anchors plus one |
| MergeKeys.AnyMergedAnchorMayWin | pkg/parser/utils.go:257-257 | every merged anchor that defines a key directly wins in some iteration order |
| MergeKeys.UnknownAnchorMayHideAll | pkg/parser/utils.go:258-262 | with one unknown anchor merged, some execution sees nothing but the own entries |
| MergeKeys.AlwaysSeenIffReliable | pkg/parser/utils.go:257-286 | when no chain of merges comes back to an anchor, a key is seen in every iteration order if and only if a chain of merges reaches a definition of it past mappings that merge known anchors only |
| MergeKeys.UnionIffReliable | pkg/parser/utils.go:257-286 | every order sees exactly the transitive union if and only if every key of it is so defined |
| MergeKeys.NearestDefinitionWins | pkg/parser/utils.go:273-282 | when no mapping merges more than one anchor, only one definition can win, and it is the nearest |
| MergeKeys.AgreeIffOneWinner | pkg/parser/utils.go:257-285 | when no chain of merges comes back to an anchor, all executions that see a definition of a key see the same one if and only if only one definition can win |
| MergeKeys.OrderIrrelevantIff | pkg/parser/utils.go:257-285 | all executions make the same of a key if and only if, besides, it is reliably defined or not defined at all |
| MergeKeys.OrderDoesNotMatter | pkg/parser/utils.go:257-285 | when no mapping merges more than one anchor, all executions agree on the definition seen for every key |
| Suppression.ParseSuppressionComments | pkg/parser/suppression.go:30-106 | the flags, lines, ranges and marker errors found are those of the scan the theorems below are about |
| Suppression.IsDiagnosticSuppressed | pkg/parser/suppression.go:109-135 | decided by the start line alone: file-wide, a suppressed line, or some range containing it; nothing is suppressed without suppression info |
| Suppression.FilterSuppressedDiagnostics | pkg/parser/suppression.go:138-148 | the diagnostics not suppressed, in their order |
| Suppression.ScannerFollowsRule | pkg/parser/suppression.go:30-135 | a line is suppressed if and only if a file, inline or next-line marker says so or it is bracketed by a start and an end with no end strictly between the start and the line |
| Suppression.KeptFollowsRule | pkg/parser/suppression.go:138-148 | a diagnostic is kept if and only if the rule does not suppress its start line |
| Suppression.KeptAreListed | pkg/parser/suppression.go:138-148 | what is kept is what is not suppressed, each once, in the order of the list |
| Suppression.ErrorsAreOffences | pkg/parser/suppression.go:65-86 | the marker errors are, in order and once each, those of the starts while a range is open and the ends while none is, each of its kind and at its line |
| Suppression.MissingEndReported | pkg/parser/suppression.go:91-103 | behind them a range left open is reported at the line of the start that opened it, and nothing else is |
| Suppression.MarkersAccountedFor | pkg/parser/suppression.go:65-103 | starts plus ends equal twice the ranges plus the marker errors, for every comment sequence |
| Suppression.RangesWellFormed | pkg/parser/suppression.go:65-86 | ranges are non-empty, sorted and pairwise disjoint, and an open range starts behind them |
| QuickFixes.AppendSuppressionCodeActions | pkg/utils/codeActions.go:24-171 | every diagnostic keeps its content and existing actions and gains behind them the three actions AddedActionsWork is about; the only failure is data that is no list of actions |
| QuickFixes.AddedActionsWork | pkg/utils/codeActions.go:43-168 | the first action added ignores the diagnostic's line, the second writes an inline comment for a diagnostic within a line and wraps the range of any other, the third ignores the file; each is titled so and has its proved effect when applied |
| QuickFixes.IndentIsLongest | pkg/utils/codeActions.go:30-41 | the indentation copied is the longest beginning of blanks and tabs |
| QuickFixes.InlineIsWritten | pkg/utils/codeActions.go:67-88 | the inline fix changes the diagnostic's line only, appends the comment when the line ends at most one column behind the diagnostic, and suppresses the line when the result reads as an inline marker |
| QuickFixes.InsertLineInserts | pkg/utils/codeActions.go:49-62 | the edit, applied by a client, inserts exactly one line in front of the given one |
| QuickFixes.FixTextMatches | pkg/parser/suppression.go:23-27 | the comment a fix writes, behind any indentation, is matched by the pattern of its marker |
| QuickFixes.AnchoredReading | pkg/parser/suppression.go:23-27 | the four patterns anchored at both ends exclude each other, whatever else the remaining lines hold |
| QuickFixes.NextLineEffect | pkg/parser/suppression.go:59-63 | a next-line marker inserted in front of a line suppresses that line and changes no other |
| QuickFixes.IgnoreLineWorks | pkg/utils/codeActions.go:43-65 | after "Ignore this line" the suppressed lines are those before, moved with the text, plus exactly the line of the diagnostic |
| QuickFixes.IgnoreFileWorks | pkg/utils/codeActions.go:127-149 | after "Ignore all errors in this file" every line is suppressed |
| QuickFixes.IgnoreRangeWorks | pkg/utils/codeActions.go:92-124 | after "Ignore this range" the first line of the diagnostic is suppressed if and only if a line stands behind the range or the text before the fix makes up for it: its last line with the closing comment is an end or file marker, or another marker does it |
| QuickFixes.IgnoreRangeAppends | pkg/utils/codeActions.go:108-119 | for a range that ends on the last line, the text the client gets: the closing comment runs on from that line |
| QuickFixes.BlankLastLine | pkg/utils/codeActions.go:108-119 | with a blank last line, that still reads as an end marker |
| QuickFixes.RangeAtEndMayFail | pkg/utils/codeActions.go:108-119 | two lines on which the fix suppresses nothing |
| QuickFixes.RangeEffect | pkg/utils/codeActions.go:92-124 | with a line behind the range, for every document and every line, whether the line is suppressed afterwards, told from the document before: in front of the range, within it and behind it |
| QuickFixes.LosesIffUncovered | pkg/utils/codeActions.go:92-124 | with a line behind the range, a line loses its suppression if and only if it lies behind the range and was suppressed only by a next-line marker on its last line or by a range that starts no later than that line |
| QuickFixes.RangeFixKeepsIff | pkg/utils/codeActions.go:92-124 | with a line behind the range, all that was suppressed stays so if and only if there is no such line |
| QuickFixes.IgnoreRangeExact | pkg/utils/codeActions.go:92-124 | for the text after the client has applied both edits, wherever the range ends in the document: whether each line is suppressed, and whether it lost its suppression, told from the text before |
| QuickFixes.IgnoreRangeKeepsIff | pkg/utils/codeActions.go:92-124 | the fix takes the suppression from no line, wherever the range ends in the document, if and only if none is lost by these conditions |
| QuickFixes.LostAtEndOnlyFirst | pkg/utils/codeActions.go:108-119 | for a range that ends on the last line, when the closing comment spoils no marker there, a line loses its suppression if and only if it is the first one, had it from a next-line marker in front, and the range does not suppress it |
| QuickFixes.RangeAtEndMayUncover | pkg/utils/codeActions.go:108-119 | a document in which the closing comment spoils an inline marker, so that the last line loses its suppression |
| QuickFixes.RangeFixMayUncover | pkg/utils/codeActions.go:91-91 | a document in which a line loses its suppression |
| ContextIndex.ContextCache.SetOrganizationContext | pkg/utils/cache.go:317-345 | the organisation's index becomes the one the theorems below are about; other organisations keep theirs |
| ContextIndex.ContextCache.GetOrganizationContext | pkg/utils/cache.go:363-367 | the context the organisation's index holds under exactly that key, or none |
| ContextIndex.ContextCache.ResolveWorkflowContext | pkg/utils/cache.go:371-395 | the exact key first, then the short name of a qualified reference, then the slug-prefixed name of a plain one |
| ContextIndex.ContextCache.ClearOrganizationContextList | pkg/utils/cache.go:309-315 | contexts, ambiguity and load mark of one organisation are forgotten, no others |
| ContextIndex.ContextCache.ClearContextCache | pkg/utils/cache.go:286-292 | all organisations are forgotten |
| ContextIndex.ContextCache.RemoveOrganizationContext | pkg/utils/cache.go:397-402 | only the given key goes; short key and ambiguity stay |
| ContextIndex.ContextCache.AddEnvVariable | pkg/utils/cache.go:404-413 | the context gains the variable once, under every key that maps to it |
| ContextIndex.InsertKeepsOthers | pkg/utils/cache.go:317-345 | setting a context touches no key but its name and its last segment |
| ContextIndex.RemoveKeepsOthers | pkg/utils/cache.go:397-402 | removing a name touches no other key and no ambiguity |
| ContextIndex.OperationsKeepSound | pkg/utils/cache.go:309-402 | after any operations a key maps to a context of that name or of that last segment, and an ambiguous short name only to a context of exactly that name |
| ContextIndex.ResolutionSound | pkg/utils/cache.go:371-395 | after any operations a reference resolves only to a context with the same last path segment |
| ContextIndex.QualifiedKeyIsLastSet | pkg/utils/cache.go:309-402 | after any operations a qualified name maps to the context last set under it, unless that was removed or cleared since |
| ContextIndex.ResolveExact | pkg/utils/cache.go:371-395 | over any sets and removals of qualified contexts a reference resolves to exactly what it stands for: the context last set under it, else the only one that ever had its last segment; a plain one to the only one that ever had it, else to the one set under slug and name |
| ContextIndex.StandsForOne | pkg/utils/cache.go:371-395 | and that is one context at most |
| ContextIndex.ExactKeyFirst | pkg/utils/cache.go:378-380 | whatever the index holds, an entry under exactly the name comes first |
| ContextIndex.ShortNamesExact | pkg/utils/cache.go:325-343 | over any run of qualified contexts a short name is indexed if and only if one context carries it, and ambiguous if and only if two or more do |
| ContextIndex.QualifiedNamesExact | pkg/utils/cache.go:323-324 | a qualified name always maps to the last context inserted under exactly that name |
| ContextIndex.OrderDoesNotMatter | pkg/utils/cache.go:317-345 | runs over the same contexts agree on every short name, whatever their order |
| ContextIndex.PlainContextKept | pkg/utils/cache.go:335-340 | a plain-named context survives later qualified ones if and only if none carries its name or the name was ambiguous before |
| ContextIndex.ShortNamesOutliveRemoval | pkg/utils/cache.go:325-402 | over any sets and removals of qualified contexts, a short name is indexed if and only if one context that carries it was ever set, and ambiguous if and only if two or more were |
| ContextIndex.RemovedStillResolves | pkg/utils/cache.go:381-402 | after them, a qualified name without an entry of its own resolves if and only if exactly one context with its last segment was ever set, and to that one |
| ContextIndex.OnlyContextOutlivesRemoval | pkg/utils/cache.go:397-402 | removing the only context with its last segment changes nothing about how its name resolves |
| ContextIndex.SetRemovedFound | pkg/utils/cache.go:397-402 | a context set and removed again is still found |
| SemanticTokens.StableSortIsStable | pkg/services/semantics.go:290-295 | the sort is ordered by line and character and keeps the order of tokens at one position |
| SemanticTokens.StableSortUnique | pkg/services/semantics.go:290-295 | there is only one such sort, so any stable sorting algorithm gives it |
| SemanticTokens.SemanticTokenStruct.AddToken | pkg/services/semantics.go:285-287 | the token is appended to the list, and nothing else changes |
| SemanticTokens.SemanticTokenStruct.AddTokenRange | pkg/services/semantics.go:278-283 | a token at the start of the range is appended, with the 32-bit difference of the offsets as its length |
| SemanticTokens.SpanLength | pkg/services/semantics.go:279-282 | that difference is the number of bytes the range covers, when it runs forward in a document below 2^32 bytes |
| SemanticTokens.SemanticTokenStruct.ProcessToken | pkg/services/semantics.go:302-316 | five numbers are appended, the first two relative to the token before, with 32-bit subtraction |
| SemanticTokens.SemanticTokenStruct.ProcessTokens | pkg/services/semantics.go:289-300 | the stable sort of the tokens is encoded, in order |
| SemanticTokens.DecodesIffSorted | pkg/services/semantics.go:302-316 | for any list, an LSP client decodes the tokens meant if and only if they are sorted, that is, no subtraction underflows |
| SemanticTokens.TokensRoundTrip | pkg/services/semantics.go:289-316 | what is sent has five numbers per token and decodes to exactly the stable sort of the tokens |
| Versions.CompareIsOrder | pkg/parser/remoteOrb.go:177-195 | precedence by section 11 of Semantic Versioning 2.0.0 is a total preorder, pre-releases and invalid versions included |
| Versions.PrecedenceExact | pkg/parser/remoteOrb.go:177-195 | one version is below another exactly by the clauses of section 11: core numbers in order, a pre-release below its release, then the first identifier that differs, numbers below others; an invalid version is below every valid one |
| Versions.ScopesExact | pkg/parser/remoteOrb.go:181-191 | the scopes are all versions, those of the same major, and those of the same major and minor version |
| Versions.GetVersionInfo | pkg/parser/remoteOrb.go:163-199 | the results are the maxima over all versions, those of the same major, and those of the same major and minor, and differ from the given version only when above it |
| Versions.NewestNested | pkg/parser/remoteOrb.go:163-199 | the patch maximum is at most the minor one, and that at most the latest |
| Versions.NewestOrderIndependent | pkg/parser/remoteOrb.go:174-196 | lists with the same versions give results of equal precedence |
| Versions.DiagnosisExact | pkg/parser/validate/version.go:19-67 | silent if and only if nothing listed is above the version; a warning if and only if it is 0.x and a production version is listed, or a newer patch is |
| Versions.DiagnosisText | pkg/parser/validate/version.go:19-67 | which message is given, told from the versions listed, and that it names the version in use, the latest, and the minor and patch versions where they differ |
| DockerSearch.FindFirstMatch | pkg/dockerhub/repositories.go:141-149 | the first repository whose name starts with the query, or none |
| DockerSearch.MatchesPrefix | pkg/dockerhub/repositories.go:143-143 | a repository matches when its name is the query with anything behind it |
| DockerSearch.MatchingAreListed | pkg/dockerhub/repositories.go:141-149 | the eager result is the matching repositories, each once, in the order of the list |
| DockerSearch.ListedAt | pkg/dockerhub/repositories.go:104-104 | what is loaded is the results of the pages, one page behind the other |
| DockerSearch.HubNamespace.LoadNext | pkg/dockerhub/repositories.go:70-109 | one more page is there; or the request failed or there was no page left, and the pages stay as they were |
| DockerSearch.SearchCursor.HasNext | pkg/dockerhub/search.go:40-60 | terminates however the loads to fail are spread, and answers for all pages, loaded or not; pages are loaded only when no loaded match lies ahead, and then all |
| DockerSearch.SearchCursor.Next | pkg/dockerhub/search.go:62-72 | when a loaded match lies ahead, the cursor moves to the first one and returns it, the head of what remains over all pages; otherwise nothing moves |
| DockerSearch.Drain | cmd/dockerhub/main.go:17-19 | the loop ends and yields exactly the matches of the concatenated pages, in order, once each |
| DockerSearch.CursorsDoNotInterfere | pkg/dockerhub/search.go:40-72 | with any number of cursors on one namespace and any sequence of turns, each has found a prefix of its eager result and has exactly the rest ahead |
| DockerSearch.TakeTurn | pkg/dockerhub/search.go:40-72 | HasNext and Next on one of several cursors of a namespace are such a turn |
| DockerSearch.TakeTurns | pkg/dockerhub/search.go:40-72 | so real cursors used in turns, in any order, each find a prefix of their eager result and have the rest ahead |

## Left out

- IncrementalSync.Methods.DidOpen: does not model parsing the document, refreshing the parsed attributes of a cached orb, resource classes and telemetry, which do not touch the document cache.
- IncrementalSync.Methods.DidChange: takes every change with a range; a change event without one is not part of this model.
- IncrementalSync.ReplicaAgreement: concerns sessions whose positions both sides read alike, a condition on each position that OffsetsAgree shows to be exact.
- Publication.NoStalePublication: assumes no API token and no removed file; with a token the environment-variable refresh rewrites cached files, which is not part of this model.
- Publication.StepKeepsInv: takes each read and each write of a cached document as atomic, which the source does under a lock for the map but not for the entry behind it; nothing is claimed about when the timer fires or the workers run.
- JobGraph.BuildJobsDAG: takes requirements by their names only, without the statuses they may list.
- MergeKeys.IterateOnBlockMapping: models the callback by the children it is called with, and mappings by their key/value children, so the punctuation children of flow mappings do not appear.
- Suppression.ParseSuppressionComments: takes each comment as its line and the marker it matches; finding comments in the syntax tree is not part of this model.
- QuickFixes.IgnoreLineWorks: assumes that how a line is read does not depend on other lines, which leaves out lines inside block scalars, where an inserted comment is text.
- QuickFixes.IgnoreRangeWorks: a range that ends past the document is not part of this model.
- QuickFixes.InlineIsWritten: on a line that goes on behind the diagnostic the fix overwrites up to 13 characters, and whether the result reads as an inline marker is left to the reading of lines.
- ContextIndex.ContextCache.SetOrganizationContext: the loops that fetch contexts page by page and feed this method are not part of this model.
- Versions.GetVersionInfo: takes the reading of version texts as a parameter.
- DockerSearch.SearchCursor.HasNext: assumes that only finitely many page loads fail, since the source loops on for as long as they do, and that the pages stay the same.
- SearchCursor.Prev, ComparePosition and AreRangeEqual: do not do what their names say, and support no theorem.
- Tree-sitter parsing, JSON schema validation, hover, completion, definition and document symbols: lookups and branches without a property across functions.
- HTTP, GraphQL, JSON-RPC, the file-system orb cache, project and environment-variable refresh, and the VS Code client: input and output.
- Unicode, UTF-16 columns and carriage returns: the code counts bytes and line feeds only.
