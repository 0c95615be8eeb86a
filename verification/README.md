# CodeVetter: verified cores of the desktop app

A Dafny model of the self-contained cores of the CodeVetter desktop app, with proofs of the
properties those cores exist for. One module per component:

| module | component |
|---|---|
| `AtomicPublish` | two-phase replacement of the benchmark report and policy, with rollback |
| `PendingReviewStates` | pending promises, their map entries and their timers |
| `VerificationRequest` | the native and the bridge gate on a request, and the request key |
| `ClaimCheck`, `QaComparison` | the verdict on claims, and the before/after comparison it uses |
| `MemoryGraph`, `FocusedGraph` | the review-memory graph as the desktop side builds it, and the bounded one-hop graph the frontend cuts from it around a finding |
| `ProcessTree`, `DirectoryWalk` | the fixpoint and worklist loops of the benchmark scripts |
| `SymbolReader`, `DeepGraph`, `DeepGraphOutput`, `ImpactGraph` | reading symbols, collecting them on a cyclic heap, what comes out, and the views built from it |
| `Calendar`, `LocalUsage` | civil dates, weeks, and usage totals |
| `TalkText` | UTF-8 truncation and talk rendering |
| `HistoryTransition` | the transition between two graph revisions |
| `AgentStream` | bounded live buffers |
| `UsagePace` | the pace label of a usage window |
| `Sequences`, `Permutations`, `Separators`, `Reachability`, `Options` | shared vocabulary |

How the parts are modelled:

- The file system is a map from path to bytes. Each `rename`, `rm` or `stat` either happens or
  fails with no effect, and a failed write or format may leave anything in its own file, all
  nondeterministically, so every contract of `AtomicPublish` holds for every failure schedule. The
  disk records its contents after each operation; a statement about all recorded contents is a
  statement about a crash between any two steps. The number of files of a publication is arbitrary,
  and two in the caller that prepares them. The plan of one publication assumes pairwise distinct
  targets, temporaries and backup names, and fresh backup names. The formatter and the derivation of
  the policy from the report are parameters.
- Timers and promises are a state machine over wait, complete, fail and fire events; the class
  `Bridge` is proved to take exactly those steps. A promise is the list of settling calls made on
  it.
- The JSON answer of the deep graph tool is a heap of numbered cells that may share and contain
  cycles. The traversal is proved to do a list of tasks in order (`Exec`), which fixes its output
  completely; what the tasks of a cell are is stated key by key, and what the output means is
  stated in terms of the reachable cells and their fields.
- Time, dates of QA runs and date parsing enter as parameters. Costs, percentages and seconds are
  exact reals. Text tests by regular expression (`isPositiveVerificationClaim`,
  `isVerificationCommandLabel`, the Chromium command test, the match of node and finding) enter as
  truth values on the records.

## Findings

Some properties one might expect do not hold; each has a concrete witness and an exact condition.

- The `truncated` flag of the focused graph only compares counts. It is silent about a cut exactly
  when the counts fit and still more than ten nodes or twelve edges belong to the neighbourhood, or
  an edge loses an end, or an edge away from the finding is shown by a shared key
  (`FlagMissesExactly`). Where node ids are distinct and equal keys join equal ends, one family is
  left: more than twelve edges but at most twelve edge keys (`FlagMissesWithDistinctIds`). Both
  repeated edges and repeated node ids bring it about (`DuplicateKeysHideACut`,
  `DuplicateIdsHideACut`). The desktop side drops repeated ids and relations before it sends the
  graph, and its ids hold no NUL, so a graph it has built is never cut silently
  (`MemoryGraph.UnsetFlagMeansNothingLost`).
- Node ids of the impact graph are distinct exactly when no affected symbol has a kind
  `impact:p` for which the centre's name is `p:` followed by the symbol's own name
  (`StarIdsExactly`, `CollidesExactly`); in particular when no kind holds a colon
  (`PlainKindsGiveDistinctIds`). The raw answer `{symbol: {name: "a:b"}, affected: [{name: "b",
  kind: "impact:a"}]}` gives two nodes of one id (`KindWithColonCollides`).
- The request key is not injective on stable ids: two pairs collide exactly when one is another
  split of the same text at a colon, and the later wait then supersedes the earlier one
  (`KeysCollideExactly`, `CollidingRequestsSupersede`).
- Swapping the two graphs of a history transition keeps the displayed edges, by key, exactly when
  each graph's undrawable edges are keyed like edges of the other (`SwapKeepsEdgesExactly`). A
  single dangling edge breaks it, and leaves the display open (`DanglingEdgeIsLost`).
- Days compared as text are in the order of the calendar exactly when years that differ are in the
  order of their texts (`TextOrdersDaysExactly`): always for years of one width
  (`TextOrdersDays`), but the year 10000 comes before 9999 (`LongYearSortsFirst`).

Beside these, the entry cap of `directoryUsage` is looked at on directories only, so one flat
directory of any number of files passes it (`FlatDirectoriesEscapeTheCap`), and `directoryBytes`
answers a symbolic-link root with the link's own size where `directoryUsage` counts nothing
(`WalksAgree`). `prepareFormattedFile` refuses an existing file at its temporary name and then
removes it (`PrepareFormattedFile`), so its exact undoing takes fresh temporary names. A refused
policy whose report's temporary cannot be removed leaves that one file behind after a single failed
operation (`PublishEvidence`).

## Model

| member | source | states |
|---|---|---|
| `AtomicPublish.PublishPreparedPair` | apps/desktop/scripts/differential-timing-benchmark.ts:379-418 | for every failure schedule: a normal return (exactly when no operation failed) leaves every target with its prepared bytes, no temporary and no backup; a throw after the last installation leaves every target new and old bytes only in backups whose removal is reported; a throw before it leaves each file as its reported failures say; in every intermediate state either all old bytes or all new bytes are on disk; unrelated paths never change |
| `AtomicPublish.CleanRollbackIsExact` | apps/desktop/scripts/differential-timing-benchmark.ts:394-406 | a rollback that reports no error restores exactly the original disk minus the temporaries |
| `AtomicPublish.Rollback` | apps/desktop/scripts/differential-timing-benchmark.ts:394-406 | every moved target is restored unless its own rename-back is reported as failed, even over a new file that could not be removed, and otherwise its old bytes are still in the backup; one error per failed step |
| `AtomicPublish.RemoveInstalled` | apps/desktop/scripts/differential-timing-benchmark.ts:396-398 | the installed targets are gone except those reported, with all backups intact at every step |
| `AtomicPublish.RestoreBackups` | apps/desktop/scripts/differential-timing-benchmark.ts:399-401 | each backup is back at its target or still in place and reported, with nothing lost at any step |
| `AtomicPublish.BackUpTargets` | apps/desktop/scripts/differential-timing-benchmark.ts:383-389 | exactly the existing targets are moved aside, in order, up to the first failure; nothing is lost at any step |
| `AtomicPublish.InstallPrepared` | apps/desktop/scripts/differential-timing-benchmark.ts:390-393 | prepared files are moved to their targets in order up to the first failure; nothing is lost at any step |
| `AtomicPublish.RemoveBackups` | apps/desktop/scripts/differential-timing-benchmark.ts:408-417 | after the commit point every state has all new targets, and a backup stays only if its removal is reported |
| `AtomicPublish.RemovePreparedFiles` | apps/desktop/scripts/differential-timing-benchmark.ts:420-426 | nothing but temporaries ever disappears, in any intermediate state; a temporary is gone or its failure is reported |
| `AtomicPublish.PublishEvidence` | apps/desktop/scripts/differential-timing-benchmark.ts:177-207 | from the report to the published pair, for every failure schedule: a run in which nothing fails and the policy is derived ends with both targets new, the policy derived from the very bytes of the published report, and nothing else changed; a refused policy with no failed operation, and any single failed operation before the commit point, leave the disk as it was; every failed operation shows in the ending; at every step all old bytes or all new ones are on disk |
| `AtomicPublish.PublishAndSweep` | apps/desktop/scripts/differential-timing-benchmark.ts:202-207 | the caller's second sweep leaves a temporary exactly if removing it failed once more, and touches no target, no backup and no other file; the crash guarantee covers it |
| `AtomicPublish.PrepareBoth` | apps/desktop/scripts/differential-timing-benchmark.ts:191-205 | both files are prepared, or only temporaries differ and a new one is left only if its removal is reported as failed; there are as many failed operations as errors, besides a refusal to derive the policy |
| `AtomicPublish.PrepareFormattedFile` | apps/desktop/scripts/differential-timing-benchmark.ts:361-377 | the formatted bytes at a temporary name that was free, or no result and no file at that name, unless its removal failed, which is then the one error reported; no other file is touched at any step |
| `AtomicPublish.ProgressSafe` | apps/desktop/scripts/differential-timing-benchmark.ts:382-393 | at any point of the two forward loops nothing is lost, and once all are installed all are new |
| `AtomicPublish.SweepSafe` | apps/desktop/scripts/differential-timing-benchmark.ts:420-426 | losing temporaries keeps both crash guarantees |
| `AtomicPublish.SettledSafe` | apps/desktop/scripts/differential-timing-benchmark.ts:394-418 | a rolled-back disk, with whatever failures, still holds all old bytes, and any other all new ones |
| `AtomicPublish.Disk.Rename` | apps/desktop/scripts/differential-timing-benchmark.ts:386-391 | a rename moves the bytes or changes nothing |
| `AtomicPublish.Disk.Remove` | apps/desktop/scripts/differential-timing-benchmark.ts:428-434 | a forced removal removes or changes nothing, and its failure is caught |
| `AtomicPublish.Disk.Exists` | apps/desktop/scripts/differential-timing-benchmark.ts:436-444 | the existence test is truthful or fails |
| `PendingReviewStates.EveryRunKeepsInv` | apps/desktop/src/lib/verification-state-bridge.ts:64-78 | in every run, unsettled promises, live timers and map entries correspond one to one and no promise gets a second settling call |
| `PendingReviewStates.ReachableStates` | apps/desktop/src/lib/verification-state-bridge.ts:64-78 | in every reachable state each unsettled wait has a live timer whose firing settles that wait alone and removes no other wait's entry |
| `PendingReviewStates.EveryWaitSettlesByFirstEvent` | apps/desktop/src/lib/verification-state-bridge.ts:64-132 | for every run, a wait ends as the first later event naming its key or firing its timer says, and is unsettled as long as there is none |
| `PendingReviewStates.SettledForever` | apps/desktop/src/lib/verification-state-bridge.ts:64-132 | a settled wait gets no further settling call in any continuation |
| `PendingReviewStates.FiringClosesOwnWait` | apps/desktop/src/lib/verification-state-bridge.ts:72-75 | a timer that can still fire deletes and rejects exactly the wait it was set for, never a successor |
| `PendingReviewStates.StepKeepsInv` | apps/desktop/src/lib/verification-state-bridge.ts:64-132 | each of the four events keeps the correspondence |
| `PendingReviewStates.OneEvent` | apps/desktop/src/lib/verification-state-bridge.ts:64-132 | one event settles an unsettled wait exactly if it concerns it, and leaves every settled one alone |
| `PendingReviewStates.Bridge.WaitForReviewState` | apps/desktop/src/lib/verification-state-bridge.ts:64-78 | takes the wait step: rejects and clears a predecessor, files a new promise with its own timer |
| `PendingReviewStates.Bridge.CompleteReviewQualificationState` | apps/desktop/src/lib/verification-state-bridge.ts:116-123 | answers true exactly when some wait goes from unsettled to resolved |
| `PendingReviewStates.Bridge.FailReviewQualificationState` | apps/desktop/src/lib/verification-state-bridge.ts:125-132 | answers true exactly when some wait goes from unsettled to rejected |
| `PendingReviewStates.Bridge.FireTimer` | apps/desktop/src/lib/verification-state-bridge.ts:72-75 | a live timer runs its callback, a cleared one does nothing |
| `VerificationRequest.IdTestsAgree` | apps/desktop/src-tauri/src/main.rs:143-150 | the Rust id test and the bridge's regular expression accept the same texts, counting bytes on one side and UTF-16 units on the other |
| `VerificationRequest.StableIdsMean` | apps/desktop/src-tauri/src/main.rs:143-150 | both tests accept exactly the texts of 1 to 128 ASCII letters, digits and four marks that begin with a letter or digit |
| `VerificationRequest.NativeImpliesBridge` | apps/desktop/src-tauri/src/main.rs:170-186 | where the date parsers agree, every natively accepted request is valid for the bridge and yields a review request with the same review id, and conversely |
| `VerificationRequest.GatesExactly` | apps/desktop/src-tauri/src/main.rs:170-186 | under one date parser either gate accepts exactly the requests of version 1 with two such ids, one of four state names, a date and such a review id |
| `VerificationRequest.ReviewStatesAreStable` | apps/desktop/src/lib/verification-state-bridge.ts:46-51 | each of the four review state names passes the id test |
| `VerificationRequest.KeysCollideExactly` | apps/desktop/src/lib/verification-state-bridge.ts:60-62 | two pairs have one key exactly when they are equal or one is another split of the same text |
| `VerificationRequest.KeyIsInjectiveWithoutColons` | apps/desktop/src/lib/verification-state-bridge.ts:60-62 | the key is injective on pairs whose run ids hold no colon |
| `VerificationRequest.CollidingRequestsSupersede` | apps/desktop/src/lib/verification-state-bridge.ts:60-78 | with stable ids holding colons, a request can reject the wait of another run and scenario |
| `ClaimCheck.VerdictExactly` | apps/desktop/src/lib/review-proof.ts:1176-1189 | on the fields of the input: blocked exactly when a retained command failed, the latest QA failed with no comparison, or the comparison is still broken or regressed; done and idle exactly when no detector has anything to report, with and without something to look at |
| `ClaimCheck.CutKeepsVerdict` | apps/desktop/src/lib/review-proof.ts:921-923 | cutting the sorted anchors to four never changes the verdict |
| `ClaimCheck.CutKeepsSeverest` | apps/desktop/src/lib/review-proof.ts:540-544 | the kept anchors contain a failed one exactly when the full list does |
| `ClaimCheck.DoneIsSound` | apps/desktop/src/lib/review-proof.ts:619-668 | done implies enough evidence, an executable proof when there are findings, no failed, stale or open retained command, no agent claim, a good comparison if any and after a successful fix, every changed file among the reviewed ones, and no three changed files without any evidence |
| `ClaimCheck.DoneAfterFixHasPassingRerun` | apps/desktop/src/lib/review-proof.ts:868-1057 | done after a successful fix means the history holds, as the latest later run of the flow last seen before the fix, a passing one |
| `ClaimCheck.AllAnchorsMeans` | apps/desktop/src/lib/review-proof.ts:868-924 | on the fields of the input: when a failed anchor is raised, and when none at all |
| `ClaimCheck.AnchorsExactly` | apps/desktop/src/lib/review-proof.ts:868-924 | an anchor is raised exactly if its gap's condition holds on the fields of the input: for each of the nine detectors, and for the fallback when none of them has anything |
| `ClaimCheck.AnchorsAreFailedFirst` | apps/desktop/src/lib/review-proof.ts:540-544 | the anchors shown are the failed ones, then the others, each in order, cut to four |
| `ClaimCheck.FailedStaleCommandClaimsMeans` | apps/desktop/src/lib/review-proof.ts:585-598 | raises exactly the statuses of the retained commands that failed or are stale |
| `ClaimCheck.UnknownCommandClaimsMeans` | apps/desktop/src/lib/review-proof.ts:600-617 | raised, at most twice and never as failed, exactly if a retained verification command has no outcome |
| `ClaimCheck.AgentClaimsMeans` | apps/desktop/src/lib/review-proof.ts:619-651 | each of the first two claims gives one anchor, failed or stale exactly if the claim is positive and the first failed or stale command is that; one anchor is failed exactly when the first such command failed and one of the two claims is positive |
| `ClaimCheck.OtherAnchorsMeans` | apps/desktop/src/lib/review-proof.ts:653-834 | the six detectors that look at evidence, QA, scope and fix raise exactly what their conditions on the fields say, drift and blind edits included |
| `QaComparison.ComparisonMeansLatestRuns` | apps/desktop/src/lib/review-proof.ts:993-1057 | written out on the runs: the run before is a latest one at or before the fix, the run after a latest later one with the same flow key; needs_rerun exactly when there is no such later run; each other status exactly its pair of outcomes |
| `QaComparison.FlowKeyExactly` | apps/desktop/src/lib/review-proof.ts:978-987 | runs are of one flow exactly when they have the same explicit key, or neither has one and all five describing fields agree |
| `QaComparison.ComparisonIsOneScan` | apps/desktop/src/lib/review-proof.ts:1001-1006 | stable sort and find equal one scan for the latest match, the earlier listed on ties |
| `QaComparison.ComparisonIgnoresOrder` | apps/desktop/src/lib/review-proof.ts:993-1057 | with distinct timestamps, permuting the history changes nothing |
| `QaComparison.TiedRunsDependOnOrder` | apps/desktop/src/lib/review-proof.ts:1001-1002 | with equal timestamps it can |
| `Sequences.StableSortSorts` | apps/desktop/src/lib/review-proof.ts:921-922 | the sort orders by rank, permutes, and keeps the order of equal ranks |
| `Sequences.StableSortUnique` | apps/desktop/src/lib/review-proof.ts:921-922 | any stable sort computes the same list |
| `Sequences.FindAfterSort` | apps/desktop/src/lib/review-proof.ts:1001-1006 | find after stable sort is the single scan |
| `FocusedGraph.BuildFocusedReviewMemoryGraph` | apps/desktop/src/lib/review-proof.ts:302-341 | no graph exactly without a direct match; otherwise the bounded graph of the one-hop ids and edge keys |
| `FocusedGraph.Neighbourhood` | apps/desktop/src/lib/review-proof.ts:313-321 | the loop collects exactly the keys and the end ids of the edges touching a direct match |
| `FocusedGraph.NeighbourhoodExactly` | apps/desktop/src/lib/review-proof.ts:313-321 | an edge belongs to the neighbourhood exactly if one of its ends, whichever, is a matched node's; an id exactly if it is matched or at the other end of such an edge |
| `FocusedGraph.FocusedIsClosed` | apps/desktop/src/lib/review-proof.ts:323-340 | at most ten nodes and twelve edges, both ends of every kept edge kept, every kept node a direct match or a neighbour of one |
| `FocusedGraph.FlagMissesExactly` | apps/desktop/src/lib/review-proof.ts:323-339 | for every graph: the flag is unset on an incomplete focused graph exactly when the two counts fit and still nodes or edges exceed their limits, an edge loses an end, or a foreign edge is shown |
| `FocusedGraph.CompleteExactly` | apps/desktop/src/lib/review-proof.ts:323-332 | the focused graph is the whole one-hop neighbourhood exactly when none of these four happens |
| `FocusedGraph.FlagMissesWithDistinctIds` | apps/desktop/src/lib/review-proof.ts:323-339 | with distinct node ids and faithful keys, exactly one family is left: more than twelve edges but at most twelve keys |
| `FocusedGraph.UnsetFlagMeansComplete` | apps/desktop/src/lib/review-proof.ts:323-339 | with distinct node ids and edge keys, an unset flag means the full one-hop neighbourhood: every matched node, every edge with a matched end in either direction, and the nodes at both ends |
| `FocusedGraph.FlagExactly` | apps/desktop/src/lib/review-proof.ts:339 | with distinct ids and keys, the flag is set exactly if the graph came cut, an edge of the neighbourhood ends at no node, or ten nodes or twelve edges are exceeded |
| `FocusedGraph.DuplicateKeysHideACut` | apps/desktop/src/lib/review-proof.ts:332-339 | with duplicate edge keys it need not |
| `FocusedGraph.DuplicateIdsHideACut` | apps/desktop/src/lib/review-proof.ts:323-339 | and so with duplicate node ids |
| `FocusedGraph.KeyIsInjective` | apps/desktop/src/lib/review-proof.ts:317 | edge keys identify the relation when ids and kinds hold no NUL |
| `MemoryGraph.BuildReviewMemoryGraph` | apps/desktop/src-tauri/src/commands/review.rs:542-700 | the loops and pushes build the first node of each offered id and the first edge of each offered relation, cut to 28 and 64, flagged exactly if that cuts or there are more than twelve files |
| `MemoryGraph.UnsetFlagMeansNothingLost` | apps/desktop/src-tauri/src/commands/review.rs:683-700 | for every review and every text match: an unset flag on the focused graph of a built graph means that it is the whole one-hop neighbourhood in the graph of everything offered, before both sides' caps |
| `MemoryGraph.FullMeans` | apps/desktop/src-tauri/src/commands/review.rs:528-540 | before the caps, every offered id and every offered relation of two ends and a kind is there exactly once, and edge keys are distinct |
| `MemoryGraph.OfferedEdgesExactly` | apps/desktop/src-tauri/src/commands/review.rs:581-682 | the relations offered, one by one: files to the nodes of context, files to candidates, candidates to gates |
| `MemoryGraph.OfferedNodesExactly` | apps/desktop/src-tauri/src/commands/review.rs:558-681 | the nodes offered, one by one |
| `MemoryGraph.ChangedFilesAreKept` | apps/desktop/src-tauri/src/commands/review.rs:558-570 | each of the first twelve changed files has its node in the result, whatever is cut |
| `MemoryGraph.BuiltIsBounded` | apps/desktop/src-tauri/src/commands/review.rs:683-690 | at most 28 nodes and 64 edges, flagged exactly if a cap cut something or there are more than twelve files |
| `MemoryGraph.KindsNeverMeet` | apps/desktop/src-tauri/src/commands/review.rs:506-526 | ids of files, candidates, gates and context nodes are never equal |
| `MemoryGraph.NodeIdMeans` | apps/desktop/src-tauri/src/commands/review.rs:521-526 | an id is its kind and a slug, or unknown for a value without letters and digits |
| `MemoryGraph.WordSlug` | apps/desktop/src-tauri/src/commands/review.rs:506-516 | a word is its own slug in lower case |
| `MemoryGraph.SlugAcross` | apps/desktop/src-tauri/src/commands/review.rs:506-520 | whatever stands between two stretches becomes one dash |
| `MemoryGraph.SlugInside` | apps/desktop/src-tauri/src/commands/review.rs:520 | what surrounds the first and last letter or digit is dropped |
| `MemoryGraph.GraphNodeId` | apps/desktop/src-tauri/src/commands/review.rs:506-526 | the id that the looped replacing, trimming and cutting give is that of the one-pass collapse |
| `MemoryGraph.SlugOf` | apps/desktop/src-tauri/src/commands/review.rs:506-520 | the loop that replaces double dashes until there is none computes the one-pass collapse of every run |
| `MemoryGraph.SlugMeans` | apps/desktop/src-tauri/src/commands/review.rs:506-521 | a slug is at most 90 lower-case letters, digits and single dashes, not led by a dash |
| `ProcessTree.BrowserProcessSnapshot` | apps/desktop/scripts/warm-verification-stability.ts:382-399 | terminates for every row list and collects exactly the pids reachable from the root along parent links: the root, each row below one that is in, and nothing else; count and memory are those of its Chromium rows |
| `ProcessTree.TotalsMean` | apps/desktop/scripts/warm-verification-stability.ts:393-398 | the count is the number of Chromium rows in the set, the memory their sum, row by row |
| `Reachability.ClosedSetsHoldAll` | apps/desktop/scripts/warm-verification-stability.ts:384-392 | a set closed under the steps and holding the start holds everything reachable |
| `ProcessTree.SnapshotIgnoresRowOrder` | apps/desktop/scripts/warm-verification-stability.ts:382-399 | set, count and memory total are the same for every order of the rows |
| `ProcessTree.TotalsIgnoreOrder` | apps/desktop/scripts/warm-verification-stability.ts:393-398 | count and memory total of a set are the same for every order of the rows |
| `DirectoryWalk.DirectoryUsage` | apps/desktop/scripts/warm-verification-stability.ts:402-438 | terminates; without a throw its four figures are the recursive sums; it throws exactly when the visiting order hits the cap |
| `DirectoryWalk.UsageMeans` | apps/desktop/scripts/warm-verification-stability.ts:411-437 | a file counts its size, a link only as skipped, a directory as one and for its entries |
| `DirectoryWalk.VisitOrder` | apps/desktop/scripts/warm-verification-stability.ts:411-437 | a directory is entered before its entries, the last entry with all below it first |
| `DirectoryWalk.DirectoryBytes` | apps/desktop/scripts/differential-runtime-qualification.ts:554-575 | terminates; on a directory its total is the recursive sum over files, on another root that root's size |
| `DirectoryWalk.ListDirectory` | apps/desktop/scripts/differential-runtime-qualification.ts:566-572 | one directory's files and pushed subdirectories account for all its bytes |
| `DirectoryWalk.WalksAgree` | apps/desktop/scripts/differential-runtime-qualification.ts:554-575 | whenever the capped walk returns, both byte totals agree, exactly unless the root is a link of non-zero size |
| `DirectoryWalk.CapHitExactly` | apps/desktop/scripts/warm-verification-stability.ts:430-433 | the cap is hit exactly when some directory on being entered is beyond it with what was met before |
| `DirectoryWalk.SmallTreesAreCounted` | apps/desktop/scripts/warm-verification-stability.ts:430-433 | a tree within the cap is always counted |
| `DirectoryWalk.FlatDirectoriesEscapeTheCap` | apps/desktop/scripts/warm-verification-stability.ts:425-433 | a flat directory of any size passes the cap |
| `SymbolReader.SymbolExactly` | apps/desktop/src/lib/deep-graph-parse.ts:30-60 | a value is read as a symbol exactly as its fields say: the first text among four name keys, the kind with its default, path, score and snippet each from their own keys |
| `SymbolReader.IsDepthKeyExactly` | apps/desktop/src/lib/deep-graph-parse.ts:81 | the depth keys are the word in any case, an optional separator and digits |
| `SymbolReader.FirstNumberExactly` | apps/desktop/src/lib/deep-graph-parse.ts:83-84 | the number of a key is that of its first full run of digits |
| `DeepGraph.CollectSymbolish` | apps/desktop/src/lib/deep-graph-parse.ts:66-120 | terminates on every finite heap, cycles included, with exactly the output of the tasks, in order |
| `DeepGraph.Collector.Collect` | apps/desktop/src/lib/deep-graph-parse.ts:66-69 | following a value expands a cell that was not expanded before, and does its tasks |
| `DeepGraph.Collector.VisitArray` | apps/desktop/src/lib/deep-graph-parse.ts:71-78 | every item in order is offered, then followed |
| `DeepGraph.Collector.VisitDepthLayer` | apps/desktop/src/lib/deep-graph-parse.ts:81-86 | what the first depth key holds is followed ahead of the fields |
| `DeepGraph.Collector.VisitFields` | apps/desktop/src/lib/deep-graph-parse.ts:88-119 | the fields in order |
| `DeepGraph.Collector.VisitField` | apps/desktop/src/lib/deep-graph-parse.ts:88-119 | one field's tasks: none for a skipped key, an offer for a naming key, the layers of by_depth or the value itself |
| `DeepGraph.Collector.VisitLayers` | apps/desktop/src/lib/deep-graph-parse.ts:110-116 | the values of a by_depth child are followed, each at its layer, the child unmarked |
| `DeepGraph.ArrayTasksExactly` | apps/desktop/src/lib/deep-graph-parse.ts:71-78 | an array's tasks, item by item: offer and follow at the array's depth |
| `DeepGraph.ObjectTasksExactly` | apps/desktop/src/lib/deep-graph-parse.ts:80-86 | an object's tasks begin with its first depth key, at the key's number, if no by_depth comes before it |
| `DeepGraph.FieldTasksExactly` | apps/desktop/src/lib/deep-graph-parse.ts:88-119 | a field's tasks, key by key: four skipped keys, three naming keys offered at depth 0, by_depth, all others |
| `DeepGraph.FieldByField` | apps/desktop/src/lib/deep-graph-parse.ts:88 | the fields are taken in order |
| `DeepGraph.LayerTasksExactly` | apps/desktop/src/lib/deep-graph-parse.ts:110-116 | the layers of a by_depth child: index, number of the key, or one deeper |
| `DeepGraphOutput.CollectedIsTraversal` | apps/desktop/src/lib/deep-graph-parse.ts:66-120 | on every finite heap the cells expanded are the reachable ones, each once, the start first at depth 0; every later cell has its depth from one before it, what a first depth key holds comes right next at the key's number; and for every set of symbols at once the output holds as many as the cells name |
| `DeepGraphOutput.OutputExactly` | apps/desktop/src/lib/deep-graph-parse.ts:66-120 | a symbol, depth included, is output exactly if a slot of an expanded cell reads as it, field by field, at the depth of an array and at 0 for an object |
| `DeepGraphOutput.OutputIsNamed` | apps/desktop/src/lib/deep-graph-parse.ts:66-120 | a symbol, depth aside, is in the output exactly when some reachable cell's fields give it |
| `DeepGraphOutput.OutputIsBounded` | apps/desktop/src/lib/deep-graph-parse.ts:66-120 | the output is no longer than the slots of the reachable cells |
| `DeepGraphOutput.MultiplicityIsDetermined` | apps/desktop/src/lib/deep-graph-parse.ts:66-120 | how often a symbol is output, depth aside, would be the same for any other order of expansion |
| `ImpactGraph.GraphFromImpactRaw` | apps/desktop/src/lib/deep-graph-parse.ts:142-201 | a star around the centre over the symbols the traversal outputs from the first of four fields that is present, else from the whole answer; truncated exactly from 120 nodes or with a risk level |
| `ImpactGraph.ImpactGraphMeans` | apps/desktop/src/lib/deep-graph-parse.ts:142-187 | in terms of the raw answer: the outer ids are those of the symbols named by reachable cells and not named like the centre, and all ids are distinct exactly when no such symbol collides with the centre |
| `ImpactGraph.BuildStar` | apps/desktop/src/lib/deep-graph-parse.ts:147-187 | one edge from the centre to each other node, and one such node for the first symbol of each id that is not named like the centre |
| `ImpactGraph.StarCarriesFields` | apps/desktop/src/lib/deep-graph-parse.ts:147-187 | which symbols become nodes, in their order, and that each node carries its symbol's kind, name and path and each edge its depth |
| `ImpactGraph.StarIsRead` | apps/desktop/src/lib/deep-graph-parse.ts:142-187 | every outer node carries the kind, name and path that some reachable cell's fields give |
| `ImpactGraph.CenterMeans` | apps/desktop/src/lib/deep-graph-parse.ts:142-145 | the centre is read from symbol, else target, else source, else made up |
| `ImpactGraph.RiskMeans` | apps/desktop/src/lib/deep-graph-parse.ts:189-193 | the risk level is read from the summary if that is an object, else from the answer |
| `ImpactGraph.FirstFieldMeans` | apps/desktop/src/lib/deep-graph-parse.ts:160-161 | the start is the first of the fields that is present, else the whole answer |
| `ImpactGraph.StarIdsExactly` | apps/desktop/src/lib/deep-graph-parse.ts:163-168 | outer ids are always distinct, and all ids are exactly when no affected symbol's kind and name split the centre's name at a colon |
| `ImpactGraph.CollidesExactly` | apps/desktop/src/lib/deep-graph-parse.ts:62-64 | on the fields: a symbol not named like the centre has its id exactly when its kind is impact, a colon and a rest, and the centre's name is that rest, a colon and the symbol's name |
| `ImpactGraph.PlainKindsGiveDistinctIds` | apps/desktop/src/lib/deep-graph-parse.ts:163-168 | kinds without a colon give distinct ids |
| `ImpactGraph.KindWithColonCollides` | apps/desktop/src/lib/deep-graph-parse.ts:142-187 | on one concrete raw answer, the graph the code builds has two nodes of one id |
| `Sequences.FirstOfEachMeans` | apps/desktop/src/lib/deep-graph-parse.ts:163-168 | keeping the first element of each id keeps every id once |
| `Sequences.FirstsInOrder` | apps/desktop/src/lib/deep-graph-parse.ts:163-168 | the kept elements are in the order of the list, each before any other of its key |
| `ImpactGraph.HitsFromQueryRaw` | apps/desktop/src/lib/deep-graph-parse.ts:122-140 | the hits are the first symbols of each id of the traversal's output from the first of four fields that is present, cut to 48 |
| `ImpactGraph.HitsAreNamed` | apps/desktop/src/lib/deep-graph-parse.ts:122-140 | in terms of the raw answer: every hit has the id of a symbol named by a reachable cell, and a list that is not full has all of them |
| `ImpactGraph.HitsAreRead` | apps/desktop/src/lib/deep-graph-parse.ts:122-140 | every hit carries the name, kind, path, score and snippet that some reachable cell's fields give |
| `ImpactGraph.HitsFromSymbols` | apps/desktop/src/lib/deep-graph-parse.ts:126-139 | the loop keeps the first symbol of each id, in order, cut to 48 |
| `ImpactGraph.HitsMean` | apps/desktop/src/lib/deep-graph-parse.ts:126-139 | at most 48 hits with distinct ids, each the first symbol of its id, in order, and no id missing unless the list is full |
| `Calendar.StartOfWeekIsMonday` | apps/desktop/src/lib/local-usage.ts:18-23 | the start of a week is a valid Monday at most six days earlier, across month, year and leap boundaries |
| `Calendar.OnlyOneMonday` | apps/desktop/src/lib/local-usage.ts:18-23 | and the only such date |
| `Calendar.StartOfWeekIsIdempotent` | apps/desktop/src/lib/local-usage.ts:18-23 | the start of a week is its own start of week |
| `Calendar.StartOfWeekIsMonotone` | apps/desktop/src/lib/local-usage.ts:18-23 | later days have later or equal starts of week |
| `Calendar.WeekTestIsDayTest` | apps/desktop/src/lib/local-usage.ts:67 | a day is at or after the current Monday exactly when its week is |
| `Calendar.SetDateMoves` | apps/desktop/src/lib/local-usage.ts:20-21 | moving the day of the month back moves the day number by as much, to a valid date |
| `Calendar.DayNumberOrders` | apps/desktop/src/lib/local-usage.ts:18-23 | day numbers order valid dates as the calendar does |
| `Calendar.Anchors` | apps/desktop/src/lib/local-usage.ts:18-23 | where the count starts, and a start of week across the end of a leap February |
| `Calendar.TextOrdersDaysExactly` | apps/desktop/src/lib/local-usage.ts:14-16 | for valid dates of any years: comparing days as text is comparing them as dates exactly when the years are equal or in the order of their texts |
| `Calendar.TextOrdersDays` | apps/desktop/src/lib/local-usage.ts:14-16 | that is so for all years of one width |
| `Calendar.LongYearSortsFirst` | apps/desktop/src/lib/local-usage.ts:14-16 | every day of the year 10000 comes, as text, before every day of 9999 |
| `Calendar.PrefixesTellMonthAndYear` | apps/desktop/src/lib/local-usage.ts:40-41 | for years of four digits, the prefix tests of the month and year totals are tests for the same month and the same year |
| `LocalUsage.UsageStats` | apps/desktop/src/lib/local-usage.ts:37-94 | the period totals are sums over the rows of the period, and the series are the sorted day and week buckets |
| `LocalUsage.PeriodsMean` | apps/desktop/src/lib/local-usage.ts:61-68 | for years of four digits, each period figure is the sum over the rows whose day, as text, is today's, comes from the Monday on, or begins with today's month or year |
| `LocalUsage.SumMeans` | apps/desktop/src/lib/local-usage.ts:42-43 | sums, row by row and field by field |
| `LocalUsage.StatsAgree` | apps/desktop/src/lib/local-usage.ts:37-94 | this week equals the sum of the weekly buckets from the current Monday on; weekly, daily and raw totals are equal for generated, cache and cost; a day's bucket is the sum of its rows |
| `LocalUsage.SeriesAreOrdered` | apps/desktop/src/lib/local-usage.ts:83-92 | both series have strictly increasing keys, the weekly ones Mondays |
| `LocalUsage.DayBucketsSum` | apps/desktop/src/lib/local-usage.ts:44-51 | any sum over days is the same over the day buckets as over the rows |
| `LocalUsage.WeekBucketsSum` | apps/desktop/src/lib/local-usage.ts:52-60 | a sum over weeks is the sum over the days of those weeks |
| `TalkText.TruncateString` | apps/desktop/src-tauri/src/talk.rs:183-194 | text within the limit is unchanged; otherwise the longest valid prefix of at most max bytes, at most three bytes short of it, and the suffix; always valid UTF-8 of at most max + 14 bytes |
| `TalkText.RenderTalkForPrompt` | apps/desktop/src-tauri/src/talk.rs:133-171 | every rendered talk is valid UTF-8 of at most 2062 bytes, the joined parts themselves when they fit |
| `TalkText.BuildParts` | apps/desktop/src-tauri/src/talk.rs:134-167 | the parts, in order, with absent fields and an empty file list left out, each valid |
| `TalkText.PartsExactly` | apps/desktop/src-tauri/src/talk.rs:134-167 | every part is the heading, the task, a present field under its caption, or the closing rule, and all of these are parts |
| `TalkText.PartsInOrder` | apps/desktop/src-tauri/src/talk.rs:134-167 | their order, when all are there |
| `TalkText.JoinLines` | apps/desktop/src-tauri/src/talk.rs:169 | one more part goes on a line of its own |
| `TalkText.ValidExactly` | apps/desktop/src-tauri/src/talk.rs:183-194 | the valid texts are exactly the encodings of scalar values |
| `TalkText.BoundaryCutsClean` | apps/desktop/src-tauri/src/talk.rs:188-192 | a cut at a character boundary leaves two valid texts |
| `TalkText.ValidPrefixEndsAtBoundary` | apps/desktop/src-tauri/src/talk.rs:188-192 | a valid prefix of a valid text ends at a boundary |
| `TalkText.BoundaryIsNear` | apps/desktop/src-tauri/src/talk.rs:188-191 | some boundary lies at most three bytes back |
| `HistoryTransition.DeriveHistoryGraphTransition` | apps/desktop/src/lib/history-workbench.ts:30-57 | the display is the current graph, then the removed nodes, then the still drawable old edges with new keys; the states are as the ids and bodies say |
| `HistoryTransition.DisplayedNodesExactly` | apps/desktop/src/lib/history-workbench.ts:36 | all current nodes, and the previous ones whose id no current node has |
| `HistoryTransition.DisplayedEdgesExactly` | apps/desktop/src/lib/history-workbench.ts:45-52 | all current edges, and the previous ones that no current edge repeats in both ends and kind and whose ends are nodes of either graph |
| `HistoryTransition.KeyTellsEdgesApart` | apps/desktop/src/lib/history-workbench.ts:46-48 | a NUL-free key tells both ends and the kind |
| `HistoryTransition.ByIdIsLast` | apps/desktop/src/lib/history-workbench.ts:34-35 | of several nodes of one id, the map holds the last |
| `HistoryTransition.StatesMean` | apps/desktop/src/lib/history-workbench.ts:37-43 | added, removed and changed exactly by membership of the id in either graph and by a differing body |
| `HistoryTransition.CurrentNodesAreRecoverable` | apps/desktop/src/lib/history-workbench.ts:36-56 | the current nodes, in order, are the displayed ones not marked removed |
| `HistoryTransition.PreviousIdsAreRecoverable` | apps/desktop/src/lib/history-workbench.ts:36-56 | the previous ids are those of the displayed nodes not marked added |
| `HistoryTransition.DisplayedIdsAreDistinct` | apps/desktop/src/lib/history-workbench.ts:54 | unique ids in both graphs give unique displayed ids |
| `HistoryTransition.OldEdgesSurvive` | apps/desktop/src/lib/history-workbench.ts:47-52 | every previous edge between previous nodes is displayed, by key |
| `HistoryTransition.DisplayIsClosedExactly` | apps/desktop/src/lib/history-workbench.ts:44-52 | the display has no dangling edge exactly when no current edge dangles |
| `HistoryTransition.SwapExchangesStates` | apps/desktop/src/lib/history-workbench.ts:30-57 | swapping the graphs keeps the node ids, exchanges added and removed, and keeps changed |
| `HistoryTransition.SwapKeepsEdgesExactly` | apps/desktop/src/lib/history-workbench.ts:45-52 | swapping keeps the edge keys exactly when each graph's undrawable edges are keyed like edges of the other |
| `HistoryTransition.DanglingEdgeIsLost` | apps/desktop/src/lib/history-workbench.ts:45-52 | one dangling edge in one of two otherwise empty graphs leaves the display open and is lost by swapping |
| `HistoryTransition.SwapKeepsEdgesOfClosedGraphs` | apps/desktop/src/lib/history-workbench.ts:45-52 | and so for all graphs without dangling edges |
| `AgentStream.TextIsLatest` | apps/desktop/src/components/unpack-agent-stream.tsx:109-119 | after any events each buffer is the last 48,000 units of all shown chunks of its stream |
| `AgentStream.ActivitiesAreLatest` | apps/desktop/src/components/unpack-agent-stream.tsx:131-143 | after any events the list is the last 80 of the shown activities with adjacent repetitions dropped |
| `AgentStream.LatestOfLatest` | apps/desktop/src/components/unpack-agent-stream.tsx:111-114 | bounding before and after appending is bounding once |
| `AgentStream.ChangesStep` | apps/desktop/src/components/unpack-agent-stream.tsx:138-142 | comparing with the last activity kept is comparing with the last one seen |
| `AgentStream.Panel.OnOutput` | apps/desktop/src/components/unpack-agent-stream.tsx:108-119 | the stream listener takes the state of all events so far to that of one more |
| `AgentStream.Panel.OnAction` | apps/desktop/src/components/unpack-agent-stream.tsx:130-143 | the activity listener takes the state of all events so far to that of one more |
| `AgentStream.Panel.Clear` | apps/desktop/src/components/unpack-agent-stream.tsx:88-95 | clearing starts over with no events |
| `UsagePace.CapsInExactly` | apps/desktop/src/lib/usage-pace.ts:52-58 | below the limit, "caps in" appears exactly when linear extrapolation reaches 100% strictly before the reset, and the inner "on pace" exactly when it reaches it at the reset |
| `UsagePace.CapMoment` | apps/desktop/src/lib/usage-pace.ts:54 | extrapolated use is at 100% or more exactly from the shown moment on |
| `UsagePace.ProjectionIsExtrapolation` | apps/desktop/src/lib/usage-pace.ts:52 | the projection is the extrapolated use at the reset |
| `UsagePace.AtLimitExactly` | apps/desktop/src/lib/usage-pace.ts:55 | "at limit" appears exactly from 100% on |
| `UsagePace.WarnsExactly` | apps/desktop/src/lib/usage-pace.ts:52-58 | the warning tone appears exactly when the limit is reached or extrapolation reaches it before the reset |
| `UsagePace.PaceExactly` | apps/desktop/src/lib/usage-pace.ts:52-64 | the label follows the extrapolated use at the reset: below 95% its rounded headroom, up to 100% "on pace", beyond it the moment of reaching 100%, "at limit" once that is past |
| `UsagePace.NoLabelExactly` | apps/desktop/src/lib/usage-pace.ts:37-49 | no label exactly for a window that is unknown, not running, younger than ten minutes or hardly used |
| `UsagePace.HeadroomRange` | apps/desktop/src/lib/usage-pace.ts:60-63 | any headroom figure lies between 5 and 99 |
| `UsagePace.SeverityIsMonotone` | apps/desktop/src/lib/usage-pace.ts:37-63 | more use is never labelled less severely |

## Left out

- AtomicPublish: a `rename` or `rm` that takes effect and still reports failure is not modelled.
  Other processes writing the same paths are not modelled.
- AtomicPublish: the contents of the report and of the policy, and what the formatter does to them.
- PendingReviewStates: the promise executor, the host window and `initializeVerificationStateBridge`;
  the 20-second delay is any moment at which a live timer fires.
- VerificationRequest: JSON parsing, the isolated-data-directory precondition, the injected script,
  and the agreement of the two date parsers, which is an assumption of `NativeImpliesBridge`.
- ClaimCheck: labels, sources, jumps and other display fields of an anchor, path normalisation, and
  the other items of the verification timeline.
- QaComparison: the summary texts, and parsing of timestamps.
- FocusedGraph: the text match of node and finding, schema version and scope text.
- MemoryGraph: the wording of node details, the trusted paths, and the rendering for the prompt.
  The lists it reads are cut before anything is offered (eight candidates and gates, four files and
  candidates of each); these cuts set no flag.
- ProcessTree: reading and parsing of `ps` output, and the Windows case, which answers zero.
- DirectoryWalk: a tree changing under the walk; the stack holds subtrees in place of paths.
- DeepGraph.CollectSymbolish: integer-like object keys being enumerated first; the fields of an
  object are taken in the order the heap lists them.
- ImpactGraph: trust, origin and evidence texts, and the summaries of `buildDeepGraphViewModel`.
- LocalUsage: `ccusageModels` and `ccusageAgentRows`, which fold and sum in the same way; time zones;
  rounding. Days are dates; `TextOrdersDays` and `PrefixesTellMonthAndYear` justify this for years
  of four digits.
- TalkText: the talk builders, which only fill records.
- AgentStream: subscription, cancelling and rendering of the component.
- UsagePace: rounding of doubles, and the duration text of a "caps in" label.
- `filterHistoryRevisions`, `resolveUsageWindowTotalSecs`, `selectTimelineSegmentFindingIndexes`,
  lookup tables and label formatting: one reading of a branch settles them.
- The scheduler, cache and retention modules of warm verification are not part of this model.
