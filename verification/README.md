# Incan driver and repository scripts: a Dafny model

This project models the algorithmic core of the Incan compiler driver and of the scripts that keep its repository in
order, and proves what they are for. Every module can be read on its own; `Orders`, `Graphs` and `PythonText` are shared.

| module | what it models |
|---|---|
| `CacheProtocol`, `CacheInvariant`, `CacheDirtyMark`, `CacheFreshLocks`, `CacheStaleRefresh`, `CacheRecords`, `CacheProgress` | the generated-build cache as a step system: any number of processes acquire, build, release, refresh, prune, inspect and crash |
| `CachePrune`, `CachePruneReport`, `CachePruneSizes` | one prune transaction over the cache directory, its report and what it leaves in true bytes |
| `TopologicalSort`, `TopologicalOrder`, `ModuleWalk`, `ModuleCollection`, `ImportClosure` | collecting source modules from seeds, sorting them, and the import closure of one module |
| `SourceDependencies` | the memoised, cycle-detecting check of unbaked source dependencies |
| `DependencySpecs`, `FingerprintEncoding`, `FingerprintDecoding`, `InspectFingerprint`, `FingerprintLists`, `FingerprintRebindings`, `FingerprintInputs`, `FingerprintLayout`, `FingerprintHasher` | the byte encoding hashed into the inspection workspace fingerprint |
| `DependencyMerge` | the promotion of normal and dev dependencies into one test dependency list |
| `SpellingWords`, `Respelling`, `SpellingScan`, `SpellingAllow`, `SpellingReports` | the spelling guard: words, case-preserving replacement, allow rules, in-place rewrite |
| `PipeRows`, `TableAlign`, `TableText`, `TableScan`, `TableFences`, `TableRerun` | the Markdown table aligner: row scanner and printer, one table, one document, a second run |
| `MatteFill`, `FloodFill` | the flood fill and hole fill of the image script |
| `EmitterFreeze`, `EmitterOutcomes`, `EmitterLedger` | the emitter freeze gate: comparison, record, prune, and the change log |
| `OverlapSweep` | the peak overlap of completed intervals |

Code that the source writes as loops over mutable state is a method with loops here, proved against a specification
function or predicate; the results below are lemmas about those specifications. For each main operation one of them says
what the operation returns in terms of its inputs alone:

| operation | told from its inputs by |
|---|---|
| a lease and a refresh, over all steps in between | `CacheRecords.SoleLease`, `CacheRecords.SharedLease`, `CacheRecords.RefreshRecords` |
| one prune | `CachePruneReport.ReportExact`, `CachePruneSizes.BudgetIsMet` |
| the module order | `TopologicalOrder.SortedIsOrder`, `TopologicalOrder.OrderUnique` |
| collecting modules | `ModuleCollection.Collect`, equal to the plain recursive walk of `ModuleWalk` |
| checking dependencies | `SourceDependencies.CheckSession`, equal to the check without memory |
| the fingerprint | `FingerprintInputs.FingerprintTellsInputs`, `FingerprintInputs.ContentsTell`, `FingerprintLayout.PreimageLayout` |
| promoting dependencies | `DependencyMerge.Promote` |
| scanning a file for spellings | `SpellingReports.FindingsExact`, `SpellingReports.FixedExact` |
| aligning a document | `TableFences.TablesOutsideFences`, `TableFences.FencesStay`, `TableText.CellStandsAt` |
| filling an image | `MatteFill.FilledExact` |
| recording and pruning a manifest | `EmitterOutcomes.RecordAnswersExact`, `EmitterOutcomes.RecordWritesExact`, `EmitterOutcomes.PruneWritesExact` |
| the peak overlap | `OverlapSweep.PeakIsOverlapIff` |

## Results that differ from what the code or its comments suggest

- **A refresh can work against a lease.** Idle refresh opens the lock file by path and locks it later. When a prune
  removes the domain in between and another process acquires it again, the refresher holds an orphaned lock file. It can
  then overwrite the dirty mark of the live lease (`CacheStaleRefresh.StaleRefreshUnderCounts`), and it can drop the very
  target tree that was leased (`CacheStaleRefresh.StaleRefreshDropsTarget`). A refresh that gets its lock is safe exactly
  when the lock file is still the one in its domain's directory at that moment (`CacheFreshLocks.LockTimeExact`). In
  every run whose refreshes all meet this, leased domains stay marked, idle ones are never under-counted, and only
  builds change a leased tree. What holds in every run all the same: no prune removes a leased domain's directory
  (`CacheInvariant.RemovalSparesLeases`), and there is no deadlock (`CacheProgress.NoDeadlock`).
- **Modules with equal keys disappear.** The sort indexes modules by identity key and keeps the last of equal ones; no
  module is lost exactly when the keys are distinct (`TopologicalSort.SortKeepsEveryModuleIff`). Collection guarantees
  that (`ModuleCollection.CollectAndSort`).
- **Fingerprint encoding.** Nothing separates the derive probes from the facets, so two bodies that differ only in where
  the one list ends share a preimage, and these are the only collisions of well-formed bodies
  (`FingerprintDecoding.EncodeEqualIff`). A feature name that is empty or starts with a flag byte can forge the flags
  (`FingerprintDecoding.FeaturesCanForgeFlags`); the condition that excludes such names is sufficient only, since most of
  them collide with nothing. Inputs share a fingerprint exactly when they agree field by field, where a dependency list
  matters up to the order of different names (`FingerprintInputs.CanonEqualIff`); swapping two specs of one name is seen
  exactly when they differ (`FingerprintInputs.SameNameOrderIsSeen`). Editing contents changes the preimage exactly when a
  projected artifact, the active root of a rebinding, a toolchain path or a path dependency is edited
  (`FingerprintInputs.ContentsTell`); the content of a path dev dependency is not hashed
  (`InspectFingerprint.DevContentIsNotHashed`).
- **Line counts are not compared.** A record changes a fingerprint without naming its file exactly when the digests
  agree and the line counts differ (`EmitterLedger.UnnamedChangeIff`). Every run names every fingerprint change exactly
  when the manifest it starts from has the line counts of its contents (`EmitterLedger.ChangesNamedIff`).
- **The sweep needs forward clocks.** The peak it returns is the true maximum overlap exactly when no interval runs
  backwards across some instant of greatest overlap (`OverlapSweep.PeakIsOverlapIff`); the intervals [5, 3) and [3, 5)
  give 0 (`OverlapSweep.BackwardsHides`).
- **A prune trusts small records.** An idle directory counts for less than it holds exactly when a measured record that
  is too small is trusted (`CachePruneSizes.UnderCountedIff`). In every run whose refreshes take current locks there is
  none, and a budget prune leaves no more than the limit in idle domains (`CachePruneSizes.ReachedCacheFits`).
- **Equal entries follow the listing.** The schedule of a prune is independent of the directory listing exactly when no
  two directories share last use and identity (`CachePrune.ListingOrderIff`).
- **One pass of the respeller need not be enough.** A rewritten line has no hits exactly when none was excused and no
  replacement that was used is itself a key of the table (`Respelling.NoHitsLeftIff`).
- **An open code span swallows padding.** A printed row splits into its cells again exactly when it ends outside a code
  span or already fills all columns (`PipeRows.PrintedRowSplits`), and realigning a table is a no-op exactly when all
  its rows are like that (`TableAlign.RealignIsNoOpIff`).
- **A centred column of width 3 stops being a table.** Its delimiter prints as a colon, a dash and a colon
  (`TableAlign.CentredColumnIsLost`); `TableAlign.AlignedDelimiterRecognisedIff` says exactly when that happens.
- **A closing fence line can be read twice.** When it contains a pipe and stands above a delimiter row, the scan reports
  a table without rows, reads the line again, and goes on as if inside code, losing tables below
  (`TableScan.ClosingLineLosesTable`). Exactly without such lines every found table has rows; then the scan finds every
  header outside fences (`TableScan.FindsExactlyIff`).

## Model

| member | source | states |
|---|---|---|
| CacheInvariant.StepKeepsLocks | loaves/compiler/incan_driver/src/generated_cache.rs:668-721 | every step of every process keeps the manager lock with one holder and every activity lock either shared or held by one |
| CacheInvariant.StepKeepsPins | loaves/compiler/incan_driver/src/generated_cache.rs:855-887 | a domain that a process is acquiring, leasing or claiming stays the directory whose lock file it holds |
| CacheInvariant.StepKeepsAllocation | loaves/compiler/incan_driver/src/generated_cache.rs:752-759 | lock files are never shared by two directories and a new directory gets a new one |
| CacheInvariant.RemovalSparesLeases | loaves/compiler/incan_driver/src/generated_cache.rs:846-887 | in every run, a domain directory vanishes only by a prune step while no lease on it is live, and each live lease's directory is there under its own lock file |
| CacheDirtyMark.MeasurementsStep | loaves/compiler/incan_driver/src/generated_cache.rs:108-139 | a measurement taken under the domain's current lock file still covers the target when it is published |
| CacheDirtyMark.DirtyMarkExact | loaves/compiler/incan_driver/src/generated_cache.rs:703-708 | a step leaves some record dishonest exactly when it publishes a nonzero measurement under a stale lock file over a leased or outgrown domain |
| CacheFreshLocks.IdleDomainsAreNeverUnderCounted | loaves/compiler/incan_driver/src/generated_cache.rs:951-961 | when every refresh that got its lock got the one in its domain's directory, every leased domain is marked dirty and the next prune never counts an idle domain for less than it holds, whatever crashed |
| CacheFreshLocks.LockTimeExact | loaves/compiler/incan_driver/src/generated_cache.rs:109-117 | after a refresh took its lock, the mark holds in every continuation without another stale lock exactly when the lock file was still the one in the directory; otherwise one of these continuations breaks it |
| CacheFreshLocks.LeasedTargetExact | loaves/compiler/incan_driver/src/generated_cache.rs:724-736 | a step changes a leased domain's target tree exactly when it is a build under a lease, or a refresh under a stale lock file that finds the tree over its bound and drops it |
| CacheFreshLocks.LeasedTargetsAreSpared | loaves/compiler/incan_driver/src/generated_cache.rs:100-139 | when every refresh took a current lock, only builds under a lease change a leased domain's target tree |
| CacheStaleRefresh.StaleRefreshDropsTarget | loaves/compiler/incan_driver/src/generated_cache.rs:724-736 | a concrete run in which a refresh empties a leased target tree |
| CacheStaleRefresh.StaleRefreshUnderCounts | loaves/compiler/incan_driver/src/generated_cache.rs:109-139 | a concrete run that publishes over a live lease and then counts seven bytes as none |
| CacheRecords.ProbeCarries | loaves/compiler/incan_driver/src/generated_cache.rs:679-692 | the probe of an idle domain trusts a measured record within the bound and measures the tree otherwise; either way the bytes it carries cover the tree and both are within the bound |
| CacheRecords.SoleLease | loaves/compiler/incan_driver/src/generated_cache.rs:668-721 | when refreshes take current locks, a lease on a domain that was idle when opened begins with a probe, and the dirty record it writes covers the tree and is within the probe's bound, whatever other processes did meanwhile |
| CacheRecords.SharedLease | loaves/compiler/incan_driver/src/generated_cache.rs:694-708 | a lease on a domain in use keeps the bytes recorded when it was opened and marks them dirty |
| CacheRecords.MeasuresWhenDue | loaves/compiler/incan_driver/src/generated_cache.rs:118-130 | a refresh under its lock measures exactly when there is a record and it is forced or ten seconds have passed |
| CacheRecords.RefreshRecords | loaves/compiler/incan_driver/src/generated_cache.rs:131-137 | under current locks a published measurement is the exact size of the tree, which is the one found or none when over the bound, and nothing else about the domain changed since |
| CacheRecords.LeaseEndsInCleanup | loaves/compiler/incan_driver/src/generated_cache.rs:75-82 | whether or not it could refresh, a process that ended a lease is idle again only after a clean-up under the manager lock |
| CacheRecords.ClaimEnds | loaves/compiler/incan_driver/src/generated_cache.rs:873-885 | a claimed lock is given up only by its holder: with the removal, without it, or in a crash |
| CacheProgress.SomeoneCanMove | loaves/compiler/incan_driver/src/generated_cache.rs:739-749 | with unfinished processes one of them can take its next step: no holder of an exclusive activity lock waits |
| CacheProgress.NoDeadlock | loaves/compiler/incan_driver/src/generated_cache.rs:74-83 | from every state of every run all processes can be run to completion without a crash or a new arrival |
| CachePrune.BudgetPruneStopsAtTheLimit | loaves/compiler/incan_driver/src/generated_cache.rs:846-887 | a budget prune walks a prefix of the schedule, removing the idle and skipping the locked; it ends within the limit or with only locked survivors, every earlier point was over the limit, and projected plus removed is the total before |
| CachePrune.SelectivePruneTakesTheRequested | loaves/compiler/incan_driver/src/generated_cache.rs:844-851 | with identities given the limit is ignored: every requested idle entry is removed, every requested locked one skipped, nothing else touched |
| CachePrune.ScheduleIsOldestFirst | loaves/compiler/incan_driver/src/generated_cache.rs:838 | the two stable sorts visit entries by last use, ties by identity, and visit each once |
| CachePrune.ListingOrderIsIrrelevant | loaves/compiler/incan_driver/src/generated_cache.rs:919-980 | when no two directories share last use and identity, any two listings give the same report |
| CachePrune.ListingOrderIff | loaves/compiler/incan_driver/src/generated_cache.rs:837-838 | the schedule is the same for all listings exactly when no two directories share last use and identity |
| CachePrune.SurvivorsWeighTheProjection | loaves/compiler/incan_driver/src/generated_cache.rs:888-895 | what a real run measures afterwards is what the dry run projects |
| CachePrune.LockedDomainsSurvive | loaves/compiler/incan_driver/src/generated_cache.rs:874-885 | whatever the limit or request, a directory whose activity lock is held is kept |
| CachePrune.CacheRoot.TryRemove | loaves/compiler/incan_driver/src/generated_cache.rs:855-886 | reports a held lock and changes nothing, or removes the one directory in a real run |
| CachePrune.CacheRoot.RemoveScheduled | loaves/compiler/incan_driver/src/generated_cache.rs:840-887 | the loop's totals, lists and remaining directories are those of the plan, in a dry run without any change |
| CachePrune.CacheRoot.PruneEntries | loaves/compiler/incan_driver/src/generated_cache.rs:830-914 | the report is the planned one, which depends on the dry-run flag in that field only, and a real run loses exactly the removed domains |
| CachePruneReport.ScheduleIsEarliestFirst | loaves/compiler/incan_driver/src/generated_cache.rs:837-838 | every directory is visited once, by last use, then name, then place in the listing |
| CachePruneReport.ReportExact | loaves/compiler/incan_driver/src/generated_cache.rs:830-914 | the report from the directories alone: before, removed and after are sums over directories measured afresh when asked for or idle and unmeasured, by record otherwise; a budget prune takes the idle directories still over the limit without the idle ones before them, a selective one those named; names come in that order, requested names without a directory are not found |
| CachePruneSizes.UnderCountedIff | loaves/compiler/incan_driver/src/generated_cache.rs:951-961 | an idle directory counts for less than it holds exactly when a measured record that is too small is trusted |
| CachePruneSizes.BudgetIsMet | loaves/compiler/incan_driver/src/generated_cache.rs:846-900 | with fresh sizes or covering records, the idle directories a budget prune leaves hold no more than the limit; with fresh sizes all that is left does, or nothing idle is left |
| CachePruneSizes.UnlockedCacheFits | loaves/compiler/incan_driver/src/generated_cache.rs:829-900 | with no lock held the whole cache then holds no more than the limit |
| CachePruneSizes.ReachedCacheFits | loaves/compiler/incan_driver/src/generated_cache.rs:132-144 | in every run of the step system whose refreshes take current locks, a prune of any reached state leaves no more than the limit in idle domains, whatever crashed |
| TopologicalSort.PrefixIsTheAcyclicPart | loaves/compiler/incan_driver/src/modules.rs:516-545 | a module is in the emitted prefix exactly when no dependency cycle is reachable from it, and follows all its collected dependencies |
| TopologicalSort.SortKeysIsPermutation | loaves/compiler/incan_driver/src/modules.rs:482-560 | distinct keys come back as a permutation |
| TopologicalSort.SortKeepsEveryModuleIff | loaves/compiler/incan_driver/src/modules.rs:490-496 | modules are lost exactly when two share a key |
| TopologicalSort.KeptKeysLoseDuplicates | loaves/compiler/incan_driver/src/modules.rs:492-496 | indexing keeps every key once and all modules exactly when keys are distinct |
| TopologicalSort.CountDependencies | loaves/compiler/incan_driver/src/modules.rs:498-514 | whatever order the edge map is iterated in, indegrees count the collected dependencies and the reverse lists hold each dependent once |
| TopologicalSort.Relax | loaves/compiler/incan_driver/src/modules.rs:530-544 | one emission lowers exactly its dependents and makes ready those that reach zero |
| TopologicalSort.EmitNext | loaves/compiler/incan_driver/src/modules.rs:524-528 | the popped module is the ready one with the smallest discovery index, whatever the map order |
| TopologicalSort.EmitOne | loaves/compiler/incan_driver/src/modules.rs:524-545 | one iteration emits the specified module and keeps indegrees equal to the open dependencies |
| TopologicalSort.UnresolvedSorted | loaves/compiler/incan_driver/src/modules.rs:547-557 | sorting the left-over modules by falling index gives reverse discovery order |
| TopologicalSort.Sort | loaves/compiler/incan_driver/src/modules.rs:482-560 | every run of the loops over unordered maps returns the one specified order |
| TopologicalOrder.SortedIsOrder | loaves/compiler/incan_driver/src/modules.rs:524-557 | from the modules and edges alone: each of the first keys is the earliest discovered whose imports are all sorted, then no such key is left and the others follow, the last discovered first |
| TopologicalOrder.OrderUnique | loaves/compiler/incan_driver/src/modules.rs:473-477 | only one sequence has this form |
| ModuleWalk.WalkStep | loaves/compiler/incan_driver/src/modules.rs:339-345 | taking the top path off the stack and putting its unprocessed imports there instead continues the plain recursive walk |
| ModuleCollection.PushImports | loaves/compiler/incan_driver/src/modules.rs:403-458 | exactly the unprocessed imports are pushed, in order, and an edge is recorded for every import |
| ModuleCollection.VisitTop | loaves/compiler/incan_driver/src/modules.rs:339-467 | one iteration keeps the walk sound, forgets nothing reachable, collects a new identity once, and leaves the recursive walk to be done unchanged |
| ModuleCollection.Collect | loaves/compiler/incan_driver/src/modules.rs:314-470 | the worklist ends; on success keys are distinct, every edge ends at a collected file, and exactly the identities the edges lead to from the seeds are collected; on failure the reported file is one the seeds lead to; modules with their order, edges and failure are those of the plain recursive walk |
| ModuleCollection.CollectionIsReachability | loaves/compiler/incan_driver/src/modules.rs:304-313 | when spellings of one file do not matter, exactly the identities reachable from the seeds are collected, and all of them parsed |
| ModuleCollection.CollectAndSort | loaves/compiler/incan_driver/src/modules.rs:469 | collection followed by the sort loses nothing and returns the specified order |
| ImportClosure.Closure | loaves/compiler/incan_driver/src/modules.rs:892-912 | exactly the modules reachable by one or more imports, without the module itself, ascending, also when cycles lead back to it |
| SourceDependencies.Checker.CheckDependencies | loaves/compiler/incan_driver/src/session.rs:467-542 | terminates; on success the visiting set is as before, everything listed is remembered with its metadata and only roots below were added; a failure names a root below that is on a cycle or broken |
| SourceDependencies.Checker.CheckNew | loaves/compiler/incan_driver/src/session.rs:512-530 | a root being visited is a cycle, any other is checked and then remembered after its dependencies |
| SourceDependencies.Checker.CheckOne | loaves/compiler/incan_driver/src/session.rs:415-447 | one root: its own discovery, its dependencies, then its metadata after theirs |
| SourceDependencies.Completed | loaves/compiler/incan_driver/src/session.rs:527-528 | remembering a checked root keeps the order with dependencies first |
| SourceDependencies.PlainRemembered | loaves/compiler/incan_driver/src/session.rs:509-511 | what is remembered of a root is what checking it again would give, whatever is being visited above it |
| SourceDependencies.CheckSession | loaves/compiler/incan_driver/src/session.rs:395-400 | succeeds exactly when no root below is on a cycle or fails by itself, and then checks exactly those roots, each once, after its dependencies; its metadata or failure is that of the recursive check without memory |
| FingerprintDecoding.DependencyIsPrefixCode | loaves/compiler/incan_driver/src/rust_inspect_workspace.rs:73-136 | with well-formed features the bytes of one dependency determine it, whatever follows |
| FingerprintDecoding.EncodeEqualIff | loaves/compiler/incan_driver/src/rust_inspect_workspace.rs:168-293 | two well-formed bodies have the same preimage exactly when they agree but for the boundary between probes and facets |
| FingerprintDecoding.EncodeInjective | loaves/compiler/incan_driver/src/rust_inspect_workspace.rs:197-209 | when probes contain a path separator and facets do not, the preimage determines the body |
| FingerprintDecoding.FeaturesCanForgeFlags | loaves/compiler/incan_driver/src/rust_inspect_workspace.rs:89-96 | two different normalized specs with equal bytes when a feature starts with a flag byte |
| InspectFingerprint.FacetsEqualIff | loaves/compiler/incan_driver/src/rust_inspect_workspace.rs:61-71 | two facet lists normalize alike exactly when they have the same nonempty trimmed members |
| InspectFingerprint.CanonOk | loaves/compiler/incan_driver/src/rust_inspect_workspace.rs:204-280 | the code's sorting and normalizing turns well-formed inputs into well-formed bodies |
| InspectFingerprint.DevContentIsNotHashed | loaves/compiler/incan_driver/src/rust_inspect_workspace.rs:276-285 | the preimage does not depend on the content of path dev dependencies, only on that of path dependencies and artifacts |
| InspectFingerprint.TrimParts | loaves/compiler/incan_driver/src/rust_inspect_workspace.rs:61-71 | trimming takes white space off both ends and nothing else |
| FingerprintRebindings.SameBoundIff | loaves/compiler/incan_driver/src/rust_inspect_workspace.rs:223-245 | two lists of rebindings are hashed alike exactly when every key occurs in as many runs and every active root has the same content |
| FingerprintInputs.CanonEqualIff | loaves/compiler/incan_driver/src/rust_inspect_workspace.rs:204-280 | two canonical bodies agree exactly when the inputs do field by field: equal scalars and probes, equal sets of facets, the same artifact roots, rebindings and contents, and for every key of a dependency list the same specs in the same order, features aside from order and, after normalizing, repetition |
| FingerprintInputs.FingerprintTellsInputs | loaves/compiler/incan_driver/src/rust_inspect_workspace.rs:152-300 | under an injective hash two well-formed inputs share a fingerprint exactly when they agree in that sense |
| FingerprintInputs.ContentsTell | loaves/compiler/incan_driver/src/rust_inspect_workspace.rs:136-149 | with everything else equal the preimage changes exactly when the content of a projected artifact, the active root of a rebinding, a toolchain path or a path dependency does |
| FingerprintInputs.RebindingsListed | loaves/compiler/incan_driver/src/rust_inspect_workspace.rs:223-245 | the hashed rebindings are the five fields of each with the digest of its active root |
| FingerprintInputs.ActiveRootIsSeen | loaves/compiler/incan_driver/src/rust_inspect_workspace.rs:239-242 | editing the active root of a rebinding changes the preimage |
| FingerprintInputs.DistinctNamesForgetOrder | loaves/compiler/incan_driver/src/rust_inspect_workspace.rs:260-264 | with distinct crate names only matters which dependencies there are |
| FingerprintInputs.SameNameOrderIsSeen | loaves/compiler/incan_driver/src/rust_inspect_workspace.rs:261 | swapping two specs of one name is seen exactly when they differ |
| FingerprintLayout.DependencyLayout | loaves/compiler/incan_driver/src/rust_inspect_workspace.rs:73-136 | the bytes of one dependency, field by field with their tags |
| FingerprintLayout.PreimageLayout | loaves/compiler/incan_driver/src/rust_inspect_workspace.rs:168-293 | all that is hashed, piece by piece with its tags, in order |
| FingerprintLayout.ListsAscend | loaves/compiler/incan_driver/src/rust_inspect_workspace.rs:204-280 | facets and roots ascend, rebindings by their five fields, dependencies by name, toolchain paths by name and package |
| FingerprintLayout.SpecFeaturesAscend | loaves/compiler/incan_driver/src/rust_inspect_workspace.rs:89-90 | the features of every dependency ascend |
| InspectFingerprint.FingerprintEqualIff | loaves/compiler/incan_driver/src/rust_inspect_workspace.rs:152-300 | under an injective hash two well-formed inputs share a fingerprint exactly when their canonical bodies agree |
| FingerprintHasher.Hasher.HashDependencySpec | loaves/compiler/incan_driver/src/rust_inspect_workspace.rs:76-136 | appends the encoding of the spec with its features sorted |
| FingerprintHasher.FeedLists | loaves/compiler/incan_driver/src/rust_inspect_workspace.rs:197-209 | appends the probes, the normalized facets and one terminator |
| FingerprintHasher.FeedHashed | loaves/compiler/incan_driver/src/rust_inspect_workspace.rs:247-274 | appends each spec followed, for local paths, by its content digest |
| FingerprintHasher.Fingerprint | loaves/compiler/incan_driver/src/rust_inspect_workspace.rs:152-300 | what reaches the hasher is the encoding of the canonical body |
| DependencyMerge.UnifiesSame | loaves/compiler/incan_driver/src/build_unit.rs:279-283 | a merged edge depends on which candidates there are, not on order or repetition |
| DependencyMerge.PromotionIgnoresOrder | loaves/compiler/incan_driver/src/build_unit.rs:257-262 | any two input orders of the same candidates give the same list or both conflict |
| DependencyMerge.Promote | loaves/compiler/incan_driver/src/build_unit.rs:263-292 | succeeds exactly when same-named candidates agree on version, source and package; then one mandatory edge per name, sorted, features united, defaults or-ed; a conflict names the crate of the first candidate that disagrees with an earlier one |
| SpellingWords.RespellingIsAWord | scripts/check_us_english.py:179-190 | a replacement is one word, joins the same neighbours, and is itself a hit exactly when its lowercase form is a key |
| SpellingReports.RespellExact | scripts/check_us_english.py:179-190 | there is a replacement exactly when the table has the word, it has two letters or more and one of three case patterns, and it is the table's in that pattern, letter by letter |
| SpellingWords.SegmentsCanonical | scripts/check_us_english.py:193-206 | the segments spell the line and divide it at every letter-run and CamelCase boundary |
| SpellingWords.CanonicalUnique | scripts/check_us_english.py:193-206 | there is no other such division of a line |
| SpellingScan.Words | scripts/check_us_english.py:193-206 | the scan yields the words of that division with their positions |
| SpellingScan.Hits | scripts/check_us_english.py:209-216 | the words with a respelling, in order |
| SpellingReports.HitsExact | scripts/check_us_english.py:209-216 | the hits are exactly the words of the line, bounded by its ends, non-letters or CamelCase steps, that have a replacement |
| SpellingReports.ReportedExact | scripts/check_us_english.py:244 | reported are exactly the hits no rule excuses |
| SpellingReports.FindingsExact | scripts/check_us_english.py:243-248 | a finding is the one-based number of a line, one of its unexcused words and the replacement of that word, and every such triple is one |
| SpellingReports.FindingsAscend | scripts/check_us_english.py:243-248 | findings come line by line |
| SpellingReports.FixedExact | scripts/check_us_english.py:249-254 | a fixed line is the line with every reported word replaced and the text between them kept |
| SpellingReports.SubtreeCovers | scripts/check_us_english.py:135-137 | a subtree rule covers the paths below its slash, no sibling that begins alike |
| SpellingReports.PathCovers | scripts/check_us_english.py:135-137 | any other rule covers its own path, or all of them |
| SpellingScan.RuleMatches | scripts/check_us_english.py:139-150 | the search loop decides whether the rule covers the path and names the hit in any case or encloses it with a phrase of the line |
| SpellingScan.ReportedHits | scripts/check_us_english.py:244 | exactly the hits no rule excuses, in order |
| Respelling.SpliceIsRewritten | scripts/check_us_english.py:250-253 | cutting the line at hit positions replaces those words and copies all other text |
| Respelling.RewriteKeepsBoundaries | scripts/check_us_english.py:243-254 | the rewritten line divides at the same boundaries, each segment the old one or its replacement |
| Respelling.NoHitsLeftIff | scripts/check_us_english.py:243-254 | a rewritten line has no hits exactly when none was excused and no used replacement is a key |
| SpellingScan.FixLine | scripts/check_us_english.py:250-253 | the pieces-and-cursor loop is the splice of the hits |
| SpellingScan.ScanFile | scripts/check_us_english.py:239-254 | findings are the unexcused hits with their line numbers; lines change in place only when fixing, and then exactly as specified |
| SpellingAllow.AuditUnderWordRulesIff | scripts/check_us_english.py:231-265 | with rules that name whole words, auditing a fixed file passes exactly when every hit was allowed, or its replacement is no key or is allowed, and then fixing again changes nothing |
| SpellingScan.AuditAfterFixIff | scripts/check_us_english.py:231-265 | without rules, auditing a fixed file passes exactly when no used replacement is a key, and then fixing again changes nothing |
| PipeRows.ScanAppend | workspaces/docs-site/utils/align_markdown_tables.py:63-110 | scanning a text after another joins the last cell with the first and carries the code state over |
| PipeRows.CellsAreCells | workspaces/docs-site/utils/align_markdown_tables.py:48-110 | every cell of a line is trimmed and scans as one cell, and all but the last end outside code |
| PipeRows.SplitRow | workspaces/docs-site/utils/align_markdown_tables.py:48-110 | the one-pass scanner computes the specified cells |
| PipeRows.PrintedRowSplits | workspaces/docs-site/utils/align_markdown_tables.py:236-237 | splitting undoes printing exactly for rows that end outside a code span or fill all columns; otherwise the open cell swallows the rest |
| TableAlign.WidthExact | workspaces/docs-site/utils/align_markdown_tables.py:209-218 | a column's width is 3 or the length of its longest cell outside the delimiter row, whichever is more |
| TableText.CellStandsAt | workspaces/docs-site/utils/align_markdown_tables.py:235-238 | every cell of a printed row stands after a separator and a blank as it was split, filled with blanks to its column's width |
| TableText.DelimiterPartExact | workspaces/docs-site/utils/align_markdown_tables.py:223-234 | a printed delimiter cell has a colon at an end exactly where the original had one, and dashes otherwise |
| TableText.DelimiterCellExact | workspaces/docs-site/utils/align_markdown_tables.py:113-122 | a delimiter cell is an optional colon, at least three dashes that may have white space around them, and an optional colon |
| TableAlign.LinesAlign | workspaces/docs-site/utils/align_markdown_tables.py:220-239 | all lines are equally long, with separators in the same columns and the cells between them |
| TableAlign.DelimiterPartRecognised | workspaces/docs-site/utils/align_markdown_tables.py:113-122 | a printed delimiter cell is recognised exactly when its colons leave three dashes |
| TableAlign.AlignedDelimiterRecognisedIff | workspaces/docs-site/utils/align_markdown_tables.py:125-129 | the aligned delimiter line is one again exactly with two columns and three dashes left in each |
| TableAlign.DelimiterLineSplits | workspaces/docs-site/utils/align_markdown_tables.py:223-234 | the delimiter line splits into the printed delimiter cells |
| TableAlign.AlignedLineSplitsIff | workspaces/docs-site/utils/align_markdown_tables.py:235-238 | any other aligned line splits into its padded cells exactly for settled rows |
| TableAlign.RealignIsNoOpIff | workspaces/docs-site/utils/align_markdown_tables.py:196-239 | aligning an aligned table again changes nothing exactly when every row but the delimiter is settled |
| TableAlign.CentredColumnIsLost | workspaces/docs-site/utils/align_markdown_tables.py:227-234 | a table whose aligned delimiter line is not recognised |
| TableAlign.ColumnWidths | workspaces/docs-site/utils/align_markdown_tables.py:209-218 | the nested loops compute the widths |
| TableAlign.AlignTable | workspaces/docs-site/utils/align_markdown_tables.py:196-239 | prints the specified lines |
| TableScan.TablesPlaced | workspaces/docs-site/utils/align_markdown_tables.py:164-193 | tables come in order without overlap, each a maximal block of table lines under a header and delimiter row, with its lines split |
| TableScan.EmptyBlockClosesFence | workspaces/docs-site/utils/align_markdown_tables.py:171-185 | a found block has two lines or more, or none exactly when its header line closes a fence |
| TableScan.FindsExactlyIff | workspaces/docs-site/utils/align_markdown_tables.py:139-193 | every table has rows exactly without trap lines; then all tables are outside fences and cover every header outside fences |
| TableScan.TrapReopensFence | workspaces/docs-site/utils/align_markdown_tables.py:164-190 | after a trap the closing line is read again and the scan goes on inside a fence |
| TableScan.ClosingLineLosesTable | workspaces/docs-site/utils/align_markdown_tables.py:164-190 | a document whose only table is missed |
| TableScan.FindTables | workspaces/docs-site/utils/align_markdown_tables.py:139-193 | terminates and returns the specified tables |
| TableFences.FencingExists | workspaces/docs-site/utils/align_markdown_tables.py:145-161 | every document has fences: a line that starts with three backticks or tildes, to the next line that starts with the same |
| TableFences.TablesOutsideFences | workspaces/docs-site/utils/align_markdown_tables.py:139-193 | for the fences of a document: every table has rows exactly when no closing line with a pipe stands above a delimiter row; then no table touches a fence and every header outside fences is in a table |
| TableFences.FencesStay | workspaces/docs-site/utils/align_markdown_tables.py:242-267 | then rewriting changes no line of any fence, of either marker |
| TableFences.TablesAreBlocks | workspaces/docs-site/utils/align_markdown_tables.py:171-190 | a table is a header, a delimiter row and all further lines with a pipe up to one without or a fence marker, each split into its cells |
| TableScan.ReplacedExactly | workspaces/docs-site/utils/align_markdown_tables.py:250-263 | replacing from the bottom up changes table lines only, and turns each table into its aligned lines |
| TableScan.ProcessFile | workspaces/docs-site/utils/align_markdown_tables.py:242-267 | the document with every table replaced, and whether it changed; the three guards hold for every table with rows |
| TableRerun.UnrecognisedIsLost | workspaces/docs-site/utils/align_markdown_tables.py:171-172 | a table whose aligned delimiter line is not recognised is not found at its place again |
| TableRerun.SecondRunIsNoOpIff | workspaces/docs-site/utils/align_markdown_tables.py:242-267 | when the aligned delimiter lines are still recognised, a second run changes nothing exactly when all rows are settled |
| MatteFill.NeighborsAreAdjacent | workspaces/docs-site/scripts/extract_incus_library.py:143-161 | the index arithmetic reaches exactly the 4-connected pixels of the image |
| FloodFill.MarksAreExterior | workspaces/docs-site/scripts/extract_incus_library.py:141-164 | with the border marked and every marked pixel surrounded, the marks are the exterior |
| FloodFill.Flood.SeedBorder | workspaces/docs-site/scripts/extract_incus_library.py:134-139 | all transparent border pixels are marked and queued |
| FloodFill.Flood.Spread | workspaces/docs-site/scripts/extract_incus_library.py:141-164 | a pixel ends up marked exactly when a path of transparent pixels joins it to the border, and each marked pixel was queued exactly once |
| FloodFill.FillHoles | workspaces/docs-site/scripts/extract_incus_library.py:123-168 | in place, exactly the transparent pixels that are not exterior become opaque |
| MatteFill.FilledExact | workspaces/docs-site/scripts/extract_incus_library.py:123-168 | a pixel becomes 255 exactly when it is below 34 and no path of such pixels, each one step right, left, down or up, leads to it from the border; all others stay |
| MatteFill.FillIsIdempotent | workspaces/docs-site/scripts/extract_incus_library.py:123-168 | filling the filled image again changes nothing |
| EmitterFreeze.DriftsExact | scripts/check_emitter_freeze.py:262-276 | the drifts are exactly the paths that differ, each once, in path order, of the right kind |
| EmitterFreeze.Compare | scripts/check_emitter_freeze.py:262-276 | the loop over the sorted union returns them |
| EmitterFreeze.CheckPassesIff | scripts/check_emitter_freeze.py:262-276 | no drift exactly when tree and manifest list the same paths with the same digests |
| EmitterFreeze.RecordAccounts | scripts/check_emitter_freeze.py:417-473 | a written record appends one entry that accounts for every path that left and every digest that changed |
| EmitterFreeze.PruneAccounts | scripts/check_emitter_freeze.py:476-519 | a written prune appends one entry naming exactly the paths it drops |
| EmitterFreeze.CheckPassesAfterRecord | scripts/check_emitter_freeze.py:464-473 | the check passes right after a written record |
| EmitterFreeze.CheckAfterPrune | scripts/check_emitter_freeze.py:479-484 | after a prune the check passes exactly when no modification is pending |
| EmitterFreeze.TwoCommandsSettle | scripts/check_emitter_freeze.py:294-304 | following the remedies, one prune and one record settle every drift but additions |
| EmitterOutcomes.DriftsShow | scripts/check_emitter_freeze.py:262-276 | a drift shows the listed fingerprint as before and the one in the tree as after, and its kind follows from which there are and their digests |
| EmitterOutcomes.RecordAnswersExact | scripts/check_emitter_freeze.py:417-449 | a record is written exactly with four note fields that are more than white space, no unlisted path, no departed path under the deletions-only policy, and something to record; each refusal has its reason in that order |
| EmitterOutcomes.RecordWritesExact | scripts/check_emitter_freeze.py:450-473 | what is written lists the tree by path and appends one entry with the stripped note, naming exactly the departed and the rewritten paths |
| EmitterOutcomes.PruneAnswersExact | scripts/check_emitter_freeze.py:476-497 | a prune is written exactly under the deletions-only policy, without unlisted paths and with a departed one; each refusal has its reason |
| EmitterOutcomes.PruneWritesExact | scripts/check_emitter_freeze.py:499-519 | what is written keeps the present files as listed and appends one entry naming exactly the departed ones |
| EmitterOutcomes.RunKeepsDeletionsApart | scripts/check_emitter_freeze.py:417-424 | over any run a departed file is logged in a deletion entry exactly when the policy in force was deletions-only, so no record made under it sweeps up a deletion |
| EmitterLedger.RunKeepsLedger | scripts/check_emitter_freeze.py:225-237 | over any run of edits, records, prunes and flips the manifest loads, listed paths are the initial ones minus the disjoint logged deletions, and every digest change is named in an entry with its full note; fingerprints as a whole are the subject of the rows below |
| EmitterLedger.LineCountsAreNotCompared | scripts/check_emitter_freeze.py:274-275 | a policy flip rewrites line counts no entry names |
| EmitterLedger.UnnamedChangeIff | scripts/check_emitter_freeze.py:450-463 | a record changes a listed fingerprint without naming the file exactly when the digests agree and the line counts differ |
| EmitterLedger.GenuineChangesNamed | scripts/check_emitter_freeze.py:93-104 | when line counts are those of the digested bytes, in the starting manifest and the trees, every fingerprint change of a run is named in a noted entry |
| EmitterLedger.ChangesNamedIff | scripts/check_emitter_freeze.py:93-104 | for trees with such line counts, every run from a manifest names every fingerprint change exactly when the manifest's own line counts are such |
| EmitterFreeze.Gate.Record | scripts/check_emitter_freeze.py:417-473 | writes the recorded manifest or refuses and changes nothing |
| EmitterFreeze.Gate.Prune | scripts/check_emitter_freeze.py:476-519 | writes the pruned manifest or refuses and changes nothing |
| OverlapSweep.ExitedExact | scripts/research/trace_replay_processes.py:113-115 | exactly the exited records are kept, as often as they occur |
| OverlapSweep.BestPrefixIsNet | scripts/research/trace_replay_processes.py:123-128 | the largest running count over the sorted events is the largest net count at any time |
| OverlapSweep.PeakOverlap | scripts/research/trace_replay_processes.py:123-128 | the sweep returns that peak, or zero |
| OverlapSweep.NetIsOverlapIff | scripts/research/trace_replay_processes.py:118-120 | the net count is the number of half-open intervals at every time exactly when none ends before it starts |
| OverlapSweep.PeakIsOverlapIff | scripts/research/trace_replay_processes.py:123-136 | the returned peak is the true maximum overlap exactly when no interval runs backwards across some instant of greatest overlap |
| OverlapSweep.BackwardsHides | scripts/research/trace_replay_processes.py:118-128 | two intervals for which the sweep returns 0 and one instant lies in an interval |
| OverlapSweep.SweepIsMaximumOverlap | scripts/research/trace_replay_processes.py:123-136 | for forward intervals the peak is the true maximum overlap |
| OverlapSweep.PeaksBracket | scripts/research/trace_replay_processes.py:136-137 | each label's peak is at most the overall peak, which is at most the sum of the label peaks |
| OverlapSweep.Summarize | scripts/research/trace_replay_processes.py:109-139 | the overall and per-label peaks over exited records only; when none of them runs backwards they are true maximum overlaps, each label's at most the overall one and that at most their sum |

## Left out

- The file system, JSON, TOML and SHA-256: directories, manifests and digests are maps, values and functions; the hash is
  injective where that matters. I/O errors, permission failures and partial removals are not modelled, and removing a
  directory or publishing metadata is one step.
- Clocks, git, subprocesses, environment and command-line parsing, printed reports.
- Bytes of the metadata and lock files inside a cache directory: only the target tree is measured. Sums are unbounded, so
  overflow of 64-bit byte counts is not modelled.
- CacheInvariant.RemovalSparesLeases: speaks of domain directories; the target tree inside is the subject of
  `CacheFreshLocks.LeasedTargetExact`. The prune inside the step system removes any claimable domain; which ones a prune
  picks is `CachePrune`'s subject.
- CachePruneSizes.ReachedCacheFits: when a domain was last used is not part of the step system and is arbitrary here; the
  order of the prune then is too.
- CacheProgress.NoDeadlock: a process that may finish is scheduled to do so; fairness of the operating system's locks is
  not modelled.
- The typechecker, parser, provider plan, feature plan and import resolution: imports of a file and dependencies of a
  root are given functions. ModuleCollection treats the standard-library edges of iterator and result surfaces as
  further imports.
- SourceDependencies.CheckSession: the completed map is keyed by root alone, because the selected features are a function
  of the root within one session; dependencies without a manifest file are not in the list.
- InspectFingerprint: strings are sequences of bytes, trimming removes ASCII white space only, and an artifact's digest
  or error text is a given function of its path. Declared derive probe paths are an input.
- DependencyMerge.Promote: `normalized` only sorts and deduplicates features, as its definition does.
- The spelling guard's word tables: `SpellingWords` takes any table whose replacements are lowercase words of two letters or
  more. Reading the allow file, choosing tracked files and decoding are not modelled.
- SpellingAllow.AuditUnderWordRulesIff: covers allow rules that name whole words, because a longer phrase can straddle a
  replaced word; with phrases `Respelling.NoHitsLeftIff` still says when a line keeps hits.
- Lower-casing is a given function that acts as usual on the letters a to z; capitalising and upper-casing are applied to
  such letters only.
- TableRerun.SecondRunIsNoOpIff: assumes that the aligned delimiter lines are recognised; otherwise a second run no longer
  finds that table (`TableRerun.UnrecognisedIsLost`). Splitting a file into lines and joining them, and the directory walk, are not modelled.
- FloodFill.FillHoles: an image has at least one pixel. Luminance, saturation, filters, fading and scaling are floating
  point or library calls; the raw alpha values are the input.
- EmitterFreeze: note texts are strings, digests opaque; the shape checks of JSON keys and of paths under the tree are
  not modelled.
- OverlapSweep.Summarize: durations, counts of incomplete records and the other report fields.
- Cargo flag policies, configuration builders, report records, `ast_walk.rs`, `writer.rs`, `selection.rs` and
  `decorator_resolution.rs`.
