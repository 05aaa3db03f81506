# EdgeWARN cycle host: a verified model

EdgeWARN runs a nowcasting cycle every few minutes. Modules written by others propose changes to the detected storm
cells through a small transactional service; the host decides which modules run and in which order, stores the cycle
in a database, publishes the resulting files, renders map chunks and forecast fields for viewers, and lets an operator
edit its configuration. This project models the parts of that host in which a mistake would silently lose or corrupt
data, and proves what they promise. `dafny verify dfyconfig.toml` checks everything.

Every component has the same shape: specification functions on values, methods and classes with the loops of the
program proved against those functions, and lemmas about the functions.

- **Publication** (`Publication`, `PublicationSafety`, `PublicationRuns`, `PublicationRecovery`,
  `PublicationOutcomes`, `CommittedCycles`, `Coordinator`). The disk is a map from paths to contents, with journals
  beside it. Every write, replacement, journal update and callback is one step that succeeds, fails before or after
  taking effect, or is where the process dies. A run is any number of processes, each of which recovers and then
  perhaps publishes. The main theorem, `PublicationRuns.CrashRecovery`, says that a recovery that completes leaves
  exactly the accepted publications applied in order, unless a journal was quarantined on the way.
  `PublicationRecovery.RecoverExact` says exactly when a recovery makes a publication whole, and
  `CommittedCycles.StoreBackedRecovery` that over the cycle store nothing is quarantined while recovery can open the
  database and meets no I/O error.
- **Working set** (`Json`, `Pointer`, `Gate`, `Grants`, `Patch*`, `WorkingSet*`, `TransactionService`). JSON values
  are a recursive datatype, the service is a class whose public calls are single steps, as its lock makes them. The
  main theorems are all-or-nothing commit, preservation of host data over every sequence of calls, commutation of the
  commits of any number of modules, the life cycle of a transaction, and exactly which paths the grants of a manifest
  open.
- **Planner** (`Ordering`, `Discovery`, `DiscoveryTheorems`, `DiscoveryReasons`, `Planner`, `DiscoveryPipeline`). The
  rejections, the invalidation loop, Kahn's algorithm and the capacity cut, with their loops, against graph-theoretic
  specifications. `WhoIsOrdered` and `WhoRuns` say exactly which modules run, `DiscoveryReasons` what is reported of
  the others.
- **Cycle store** (`CycleStore`, `CycleStoreTheorems`, `CycleStoreContents`, `LegacyImports`, `Repository`). The
  tables are maps and a writer transaction is one step that changes all of them or none.
- **Configuration editor** (`ConfigPath`, `ConfigDocument`, `ConfigEditor`). Printing and splitting of dotted paths,
  the enumeration of scalar leaves against the resolution of paths, and the edit with its rollback.
- **Map chunks** (`Numbers`, `Tiling`, `Reassembly`, `ChunkPublication`, `ChunkHistories`). Cutting and reassembly of
  an array, and the re-render of a timestamp as a state machine of concurrent chunk writes, an index write and
  removals.
- **Forecast fields** (`Quantiser`, `ProductIndex`). The 16-bit code over reals and the newest-N index.
- **Cell geometry** (`Geometry`). Longitude differences, shoelace area and the ray profile over reals.

`Wrappers`, `Collections`, `Reordering` and `RealArithmetic` hold what the components share.

Six statements of the program or its documentation turned out not to hold as written; the code was followed and the
exact condition proved.

- The cycle message says that a module left over by the ordering "is part of" a cycle. The leftovers are the modules
  that can *reach* a cycle (`LeftoversExact`, `LeftoverNeedNotBeOnCycle`).
- The manifest admits grants that the transaction gate never honours. A grant's text is compared with the join of the
  decoded segments, so that a grant spells its own path if and only if it holds no escape (`GrantNamesItself`). Of the
  grants of a valid manifest the gate opens exactly those that meet its own conditions and hold no escape or are spelt
  by another grant (`GrantOpensGate`). `EscapedGrantRefused` and `BarePropertyRefused` are valid manifests whose one
  grant is refused. A grant with an escape opens another key instead (`EscapedGrantMissesItsKey`), and a grant for `y`
  below `x` also opens the single key `x/y` (`GrantOpensMergedKey`).
- The legacy import promises "no overwrites". An existing row keeps its owner and content if and only if no entry
  names it (`ImportOverwritesExact`), and an accepted file may name one (`ImportCanOverwrite`).
- Recovery quarantines a journal whose database cycle has gone or whose replacement raises. The files are whole
  afterwards if and only if nothing was due or the cycle is committed and each due replacement happens
  (`RecoverExact`). A run from a clean disk ends with one target new and the other old (`QuarantineCanSplitTargets`).
- A lost index write is logged and the clean-up goes on. Readers then miss exactly the listed chunks that the events
  account for (`HistoryExact`). A render is safe however it goes if and only if it publishes again whatever the old
  index names, and a sequence of renders if and only if each publishes again what all before it published
  (`RenderSafeExactly`, `PlanSafeExactly`). Two renders from an empty folder lose a listed chunk
  (`LostIndexLosesAChunk`).
- A configuration key that ends in `.yaml` cannot be addressed from the command line (`ExtensionKeyIsUnreachable`).

## Model

| member | source | states |
|---|---|---|
| PublicationRuns.CrashRecovery | src/EdgeWARN/ctam/publication.py:53-108 | whatever processes crashed or failed before, and whatever errors recovery survived, a completed recovery leaves no open journal and exactly the accepted publications applied in order, none in part, unless a journal was quarantined; without I/O errors in recovery and with cycles that stay committed none is |
| PublicationRuns.PublishSafe | src/EdgeWARN/ctam/publication.py:76-108 | a publication stopped anywhere leaves the old files or a journal that can be rolled forward; callbacks see only complete new files |
| PublicationOutcomes.PublishAnnounces | src/EdgeWARN/ctam/publication.py:98-103 | for every disk, call and script a publication that succeeds ran each given callback exactly once, alerts before indexes, on the final files; one that does not ran a prefix of them |
| PublicationOutcomes.PublishSucceeds | src/EdgeWARN/ctam/publication.py:76-108 | with no error ahead a publication succeeds if and only if it has payloads, all finite JSON that reads back, and its cycle is committed |
| PublicationOutcomes.PublishFiles | src/EdgeWARN/ctam/publication.py:76-108 | after a success each target holds its payload and no other visible file changed |
| PublicationOutcomes.PublishJournal | src/EdgeWARN/ctam/publication.py:88-103 | only the call's own journal changes and only if accepted: committed with every target recorded as replaced, or prepared with every target recorded |
| PublicationRuns.AcceptSafe | src/EdgeWARN/ctam/publication.py:90-92 | the journal write is the commit point: with it the new files are owed, without it nothing is pending and nothing visible changed |
| PublicationRuns.PrepareSafe | src/EdgeWARN/ctam/publication.py:82-89 | preparation writes nothing but its own sibling parts and leaves each complete |
| PublicationRuns.InstallSafe | src/EdgeWARN/ctam/publication.py:94-97 | after any prefix of the replacements the journal is still resumable; after all of them every target is new |
| PublicationRuns.FinishSafe | src/EdgeWARN/ctam/publication.py:93-108 | from the prepared journal on, any interruption keeps the owed files reachable; success closes the journal |
| PublicationRuns.SessionSafe | src/EdgeWARN/ctam/publication.py:53-108 | one process, recovery first, keeps at most its own journal open and never quarantines on a healthy disk |
| PublicationRuns.RunSafe | src/EdgeWARN/ctam/publication.py:53-108 | over any run without quarantine the files equal the accepted publications outside one resumable journal |
| PublicationRuns.ReliableRunsQuarantineNothing | src/EdgeWARN/ctam/publication.py:62-73 | crashes alone never quarantine a journal while the cycles that were committed at publication stay so |
| CommittedCycles.StoreBackedRecovery | src/EdgeWARN/ctam/publication.py:33-74 | with any commits and imports in between, as long as every recovery can open the database and meets no I/O error, no journal is ever quarantined and a completed recovery leaves exactly the accepted publications |
| CommittedCycles.CommitEnablesPublication | src/EdgeWARN/ctam/publication.py:33-47 | an accepted commit makes its cycle one that a publication may depend on, an import never does |
| PublicationRecovery.RecoverNothing | src/EdgeWARN/ctam/publication.py:53-74 | recovery is idempotent: with no open journal it changes nothing |
| PublicationRecovery.RecoverItemsExact | src/EdgeWARN/ctam/publication.py:63-69 | after the targets of one journal nothing is due if and only if nothing was, or every due replacement takes effect with none before the last raising |
| PublicationOutcomes.RecoverVerifies | src/EdgeWARN/ctam/publication.py:63-69 | on a disk in any state recovery puts nothing in place but content with the recorded hash, and goes through only if every target has it and new content reads back |
| PublicationOutcomes.InstallVerifies | src/EdgeWARN/ctam/publication.py:94-97 | on a disk in any state the replacements go through only if every target has the recorded hash |
| PublicationOutcomes.RecoveredExact | src/EdgeWARN/ctam/publication.py:53-74 | a completed recovery reports exactly the open journals that it closed rather than quarantined, each once |
| PublicationRecovery.RecoverExact | src/EdgeWARN/ctam/publication.py:53-74 | a recovery that runs to its end completes the publication if and only if every target already has its recorded hash, or the database cycle is committed and every due replacement happens; it always closes or quarantines the journal |
| PublicationRecovery.QuarantineCanSplitTargets | src/EdgeWARN/ctam/publication.py:72-73 | from a clean disk, a publication that dies after its first replacement and a recovery that finds the cycle gone leave one target new and the other old |
| PublicationSafety.RecoverSafe | src/EdgeWARN/ctam/publication.py:53-74 | recovery over any journal listing, stopped anywhere, keeps every open journal resumable and completes those it reaches |
| PublicationSafety.RecoverItemsSafe | src/EdgeWARN/ctam/publication.py:63-69 | the hash test skips installed targets and installs the others without losing the parts that are still needed |
| PublicationSafety.MoveKeepsResumable | src/EdgeWARN/ctam/publication.py:95-97 | one replacement, done or not, keeps every item of the journal ready |
| PublicationSafety.PartPathInjective | src/EdgeWARN/ctam/publication.py:85 | different targets of a transaction have different temporary names |
| Coordinator.PublicationCoordinator.Publish | src/EdgeWARN/ctam/publication.py:76-108 | the method with its loops leaves the disk that the specified publication leaves, at every crash point |
| Coordinator.PublicationCoordinator.PrepareAll | src/EdgeWARN/ctam/publication.py:82-89 | the preparation loop against its specification |
| Coordinator.PublicationCoordinator.InstallAll | src/EdgeWARN/ctam/publication.py:94-97 | the replacement loop, with the in-memory `replaced` marks |
| Coordinator.PublicationCoordinator.Recover | src/EdgeWARN/ctam/publication.py:53-74 | the loop over the journals, with quarantine, against its specification |
| Coordinator.PublicationCoordinator.RollForwardJournal | src/EdgeWARN/ctam/publication.py:62-70 | the loop over one journal's targets against its specification |
| Pointer.DecodersAgree | src/EdgeWARN/ctam/manifest.py:848-866 | replacing `~1` then `~0` after the lone-tilde check accepts and yields the same as the left-to-right scan, on every segment |
| Pointer.ScanEscape | src/EdgeWARN/ctam/transaction.py:35-45 | decoding inverts the escaping of section 3 of RFC 6901 |
| Pointer.EscapeScan | src/EdgeWARN/ctam/transaction.py:35-45 | escaping inverts decoding on segments of a split pointer |
| Pointer.ZeroFirstIsWrong | src/EdgeWARN/ctam/manifest.py:851-852 | the opposite replacement order fails exactly on keys that hold `~1` |
| Pointer.SplitJoin | src/EdgeWARN/ctam/transaction.py:31 | splitting a pointer inverts joining its segments |
| Pointer.DecodeSegment | src/EdgeWARN/ctam/transaction.py:35-45 | the index loop computes the scan |
| Pointer.UnescapeSegment | src/EdgeWARN/ctam/manifest.py:854-866 | the find loop and the two replacements compute the manifest decoding |
| Gate.ParsePointer | src/EdgeWARN/ctam/transaction.py:27-46 | the parser returns the decoded segments or the error of the first defect |
| Gate.ValidatePatchPath | src/EdgeWARN/ctam/transaction.py:49-80 | an accepted path has at least two segments and addresses a slot that the module owns |
| Gate.Admit | src/EdgeWARN/ctam/transaction.py:200-220 | an admitted operation addresses an owned, declared slot |
| Grants.PathExact | src/EdgeWARN/ctam/transaction.py:27-46 | a pointer decodes to given segments if and only if it is their escaped path and none is empty |
| Grants.JoinExact | src/EdgeWARN/ctam/transaction.py:83-87 | a grant text is the join of exactly the segment lists that split into the same parts |
| Grants.AdmitExact | src/EdgeWARN/ctam/transaction.py:83-87 | the gate admits a path if and only if its segments pass the path rules and some grant spells them |
| Grants.ManifestAdmitsExact | src/EdgeWARN/ctam/manifest.py:766-845 | a manifest may declare exactly the escaped paths of its own display name and of properties named after it, apart from the host's keys and control characters |
| Grants.HostKeysAreClosed | src/EdgeWARN/ctam/transaction.py:49-68 | whatever a manifest declares and however the name is cased, no path below the host's own keys is admitted |
| Grants.GrantNamesItself | src/EdgeWARN/ctam/transaction.py:83-87 | the text of a grant is the join of its own decoded segments if and only if it holds no escape |
| Grants.GrantAuthorises | src/EdgeWARN/ctam/transaction.py:83-87 | a grant declares exactly the segment lists that split into the parts of its text; among lists without a slash this is one list |
| Grants.GrantOpensGate | src/EdgeWARN/ctam/manifest.py:766-845 | every grant of every valid manifest opens the place it names if and only if the gate's own conditions hold there and it holds no escape or another grant spells the place |
| Grants.EscapedGrantMissesItsKey | src/EdgeWARN/ctam/transaction.py:83-87 | a grant with an escape, in any valid manifest and for any kind of place, does not authorise what it names unless another grant does, and authorises the place spelt like its text instead wherever the path rules accept that |
| Grants.EscapedGrantRefused | src/EdgeWARN/ctam/manifest.py:766-845 | a valid manifest with one grant, for a key that needs escaping, which the gate refuses |
| Grants.BarePropertyRefused | src/EdgeWARN/ctam/manifest.py:766-845 | a valid manifest with one grant, for the property named exactly `module_id`, which the gate refuses |
| Grants.GrantOpensMergedKey | src/EdgeWARN/ctam/transaction.py:83-87 | every grant of a valid manifest also spells each list that merges two neighbouring segments into one key, and opens it if and only if the path rules accept it, as they do below the module's name and for nested properties |
| Patch.EditLocal | src/EdgeWARN/ctam/transaction.py:117-134 | an edit reads and changes nothing but its first key |
| Patch.ApplyPreserves | src/EdgeWARN/ctam/transaction.py:307-318 | a list of operations on owned slots leaves everything else in the entry as it was |
| Patch.ApplyCommutes | src/EdgeWARN/ctam/transaction.py:307-318 | operation lists on disjoint slots commute, and neither makes the other fail |
| Patch.ApplyAll | src/EdgeWARN/ctam/transaction.py:307-318 | the loop over add, replace and test computes the specified application |
| PatchMeaning.EqualExact | src/EdgeWARN/ctam/transaction.py:312-313 | two values are equal if and only if they differ at most in writing booleans as the numbers 0 and 1 |
| PatchMeaning.DepthExact | src/EdgeWARN/ctam/transaction.py:100-111 | a payload passes the nesting limit if and only if no chain of containers is longer |
| PatchMeaning.EditSucceeds | src/EdgeWARN/ctam/transaction.py:117-134 | a test succeeds if and only if its path reads an equal value, a replacement if and only if it reads a value, an addition if and only if only objects lie above it; the error of each failure |
| PatchMeaning.EditWrites | src/EdgeWARN/ctam/transaction.py:307-318 | after an addition or replacement its path reads its value, paths inside read what the value holds, and every unrelated path reads as before; a test changes nothing |
| PatchMeaning.ApplyReads | src/EdgeWARN/ctam/transaction.py:307-318 | after a list of operations each path reads what the last operation that touches it says, and as before if none does |
| WorkingSet.FindEntryFirst | src/EdgeWARN/ctam/transaction.py:188-191 | a timestamp selects the first entry that carries it, and only that one |
| WorkingSetCommit.CommitEffect | src/EdgeWARN/ctam/transaction.py:269-291 | commit changes nothing if some operation cannot be applied; otherwise the second pass cannot fail and each entry is the application of the operations that reach it |
| WorkingSetContents.CommitReads | src/EdgeWARN/ctam/transaction.py:278-291 | after a commit every cell and every history entry reads at each path what the last staged operation that touches it says, and as before if none does |
| WorkingSetCommit.ValidateExact | src/EdgeWARN/ctam/transaction.py:269-276 | validation passes exactly when every staged list applies to its current entry |
| WorkingSetCommit.WriteHistoryEffect | src/EdgeWARN/ctam/transaction.py:285-288 | admitted paths keep timestamps, so distinct keys select distinct entries throughout the writing pass |
| WorkingSetCommit.WriteCellsEffect | src/EdgeWARN/ctam/transaction.py:281-284 | the writing pass over the cells applies each staged list once and counts one revision for each |
| WorkingSetRuns.HostDataPreserved | src/EdgeWARN/ctam/transaction.py:117-134 | in every reachable state every entry equals its initial value outside the slots owned by sealed modules |
| WorkingSetRuns.StepKeepsInv | src/EdgeWARN/ctam/transaction.py:166-291 | every public call, accepted or rejected, keeps the service invariant |
| WorkingSetRuns.CommitPreserves | src/EdgeWARN/ctam/transaction.py:278-291 | a commit changes nothing outside its own module's slots |
| WorkingSetRuns.RunSeals | src/EdgeWARN/ctam/transaction.py:166-291 | no sequence of calls unseals a transaction |
| WorkingSetCommute.CommitsCommute | src/EdgeWARN/ctam/transaction.py:278-291 | for modules with distinct names and no shared property key both commit orders give the same working set, and each succeeds or fails alike |
| WorkingSetOrders.AnyOrder | src/EdgeWARN/ctam/transaction.py:269-291 | any number of open modules with distinct names and no shared property key: every order of their commits ends in the same working set, and a module succeeds in it if and only if it would succeed alone |
| WorkingSetCommute.SameVerdict | src/EdgeWARN/ctam/transaction.py:269-291 | whether a module commits does not depend on whether the other committed before |
| WorkingSetCommute.CommitLeavesOthersAlone | src/EdgeWARN/ctam/transaction.py:49-87 | a commit leaves every slot of a module with another namespace as it was, in every cell and every history entry; an absent container may be created, but without the key |
| WorkingSetLifeCycle.RevisionsCountSeals | src/EdgeWARN/ctam/transaction.py:278-291 | a revision is the number of sealed transactions that staged under its key, in every reachable state |
| WorkingSetLifeCycle.InitialCounted | src/EdgeWARN/ctam/transaction.py:152-164 | a fresh service starts with the counts of the previous row at zero |
| WorkingSetLifeCycle.ClosedNeverGrows | src/EdgeWARN/ctam/transaction.py:172-174 | staged content never grows after seal or abandon |
| WorkingSetLifeCycle.CommitAbandoned | src/EdgeWARN/ctam/transaction.py:261-291 | committing an abandoned transaction seals it and changes nothing else |
| WorkingSetLifeCycle.SecondCommitIsIdle | src/EdgeWARN/ctam/transaction.py:278-280 | a second commit after any calls changes nothing |
| WorkingSetLifeCycle.AlertsOnlyFromSealed | src/EdgeWARN/ctam/transaction.py:293-296 | the published alerts are exactly those of sealed transactions |
| WorkingSetLifeCycle.AlertsInOrder | src/EdgeWARN/ctam/transaction.py:293-296 | alerts are published in module order, and those of one module in the order of staging |
| WorkingSetLifeCycle.RoutesWithinLimit | src/EdgeWARN/ctam/transaction.py:233-247 | each module's route bytes stay within the aggregate limit in every reachable state |
| TransactionService.Service.StageCell | src/EdgeWARN/ctam/transaction.py:176-184 | the method's whole new state, including the empty list left by a rejected first batch |
| TransactionService.Service.StageHistory | src/EdgeWARN/ctam/transaction.py:186-198 | the same for a history entry |
| TransactionService.Service.StageOps | src/EdgeWARN/ctam/transaction.py:200-220 | the loop keeps the accepted prefix of a rejected batch |
| WorkingSetStaging.CheckOpExact | src/EdgeWARN/ctam/transaction.py:200-220 | one operation is accepted if and only if it has a supported kind, a path that the rules and a grant allow, and a finite value within the limit; it is staged as asked |
| WorkingSetStaging.RejectionExact | src/EdgeWARN/ctam/transaction.py:200-220 | the error of every rejected operation |
| WorkingSetStaging.AppendExact | src/EdgeWARN/ctam/transaction.py:183 | operations staged under a key go behind the earlier ones, and every other key is untouched |
| WorkingSetStaging.StageCellExact | src/EdgeWARN/ctam/transaction.py:176-184 | a request on a cell is stale, and changes nothing, if its revision is not the number of sealed transactions that staged there; otherwise its operations are staged in order up to the first that is not allowed, and it is accepted if and only if all are |
| WorkingSetStaging.StageHistoryExact | src/EdgeWARN/ctam/transaction.py:186-198 | the same for a history, where the timestamp selects the first entry that carries it |
| WorkingSetStaging.StaleIsRefused | src/EdgeWARN/ctam/transaction.py:176-198 | in every reachable state a request with an outdated revision is refused and changes nothing |
| TransactionService.Service.StageRoute | src/EdgeWARN/ctam/transaction.py:233-247 | route staging with its limits against the specification |
| WorkingSetStaging.StageAlertExact | src/EdgeWARN/ctam/transaction.py:222-231 | an alert is accepted if and only if it names its source, an active cell, an id and a geometry; it goes behind the earlier ones |
| WorkingSetStaging.StageRouteExact | src/EdgeWARN/ctam/transaction.py:233-247 | a route is accepted if and only if it is safe, declared and within every limit; it replaces the payload staged under it and no other |
| WorkingSetStaging.RouteIdExact | src/EdgeWARN/ctam/manifest.py:56 | the route pattern, character by character |
| WorkingSetStaging.AbandonExact | src/EdgeWARN/ctam/transaction.py:261-267 | abandoning succeeds exactly on open transactions and empties them |
| WorkingSetStaging.PublishedRoutesExact | src/EdgeWARN/ctam/transaction.py:298-305 | a route is published with a payload if and only if a sealed module staged it |
| TransactionService.Service.Validate | src/EdgeWARN/ctam/transaction.py:269-276 | both validation loops against the specification |
| TransactionService.Service.Commit | src/EdgeWARN/ctam/transaction.py:278-291 | both writing loops, revisions and seal against the specification |
| TransactionService.Service.Serve | src/EdgeWARN/ctam/transaction.py:166-305 | every public call is one step of the specified machine and keeps the invariant |
| TransactionService.Service.PublishableAlerts | src/EdgeWARN/ctam/transaction.py:293-296 | the loop collects the alerts of sealed transactions in module order |
| DiscoveryTheorems.InvalidationExact | src/EdgeWARN/ctam/discovery.py:228-262 | the loop marks exactly the runnable modules with a finite dependency path to a missing, disabled or invalid one |
| DiscoveryReasons.ReasonsTrue | src/EdgeWARN/ctam/discovery.py:228-262 | every recorded reason names a dependency of the module and says what is wrong with it |
| DiscoveryReasons.FirstDirectIsReported | src/EdgeWARN/ctam/discovery.py:237-259 | a module with dependencies that the scan alone rules out reports the first of them in its own list |
| DiscoveryReasons.EdgesExact | src/EdgeWARN/ctam/discovery.py:269-276 | the graph holds the runnable modules that are not blocked and their dependencies among themselves |
| DiscoveryReasons.BuiltInNeverBlocks | src/EdgeWARN/ctam/discovery.py:222-239 | the built-in adapter is a legal dependency that never blocks a module |
| DiscoveryTheorems.KahnLeast | src/EdgeWARN/ctam/discovery.py:267-292 | the emitted order is topological, and against any other topological order of its nodes the first difference is in its favour in dictionary order |
| DiscoveryTheorems.LeftoversExact | src/EdgeWARN/ctam/discovery.py:294-302 | the modules left over are exactly those that can reach a cycle |
| DiscoveryTheorems.LeftoverNeedNotBeOnCycle | src/EdgeWARN/ctam/discovery.py:298-302 | a module behind a cycle is reported as part of one although it is not |
| DiscoveryTheorems.OrderIsCanonical | src/EdgeWARN/ctam/discovery.py:214-224 | permuting the scanned candidates does not change the result, reasons included |
| DiscoveryTheorems.OrderIsComplete | src/EdgeWARN/ctam/discovery.py:304-320 | every candidate is reported exactly once |
| DiscoveryTheorems.OrderShape | src/EdgeWARN/ctam/discovery.py:304-320 | first the ordered modules as scanned, then the rest, none of them runnable |
| DiscoveryTheorems.Verdicts | src/EdgeWARN/ctam/discovery.py:225-320 | each module is ordered, doomed or able to reach a cycle, and its place says which |
| DiscoveryTheorems.CapacityCutIsClosed | src/EdgeWARN/ctam/discovery.py:323-350 | at most eight modules stay runnable, and every dependency of one of them is admitted and placed earlier |
| DiscoveryReasons.OrderedReport | src/EdgeWARN/ctam/discovery.py:323-350 | of the ordered modules the first eight stay as scanned and each further one reports its position |
| DiscoveryReasons.TrailingExplained | src/EdgeWARN/ctam/discovery.py:304-320 | every other candidate follows by id, unchanged if it was not runnable, with a true reason if it is blocked, and otherwise with the members that can reach a cycle |
| Discovery.ByIdExact | src/EdgeWARN/ctam/discovery.py:225-226 | the index holds exactly the scanned candidates |
| Planner.InvalidationLoop | src/EdgeWARN/ctam/discovery.py:231-262 | the fixed-point loop terminates and computes the least fixed point |
| Planner.Discard | src/EdgeWARN/ctam/discovery.py:284-289 | the in-place removal of an emitted module and the newly ready ones |
| Planner.Emit | src/EdgeWARN/ctam/discovery.py:281-292 | popping and re-sorting keeps the ready list equal to the sorted ready set |
| Planner.KahnLoop | src/EdgeWARN/ctam/discovery.py:277-292 | the loop emits the specified order and leaves the specified remainder |
| Planner.CollectTrailing | src/EdgeWARN/ctam/discovery.py:308-319 | every unplaced candidate appears once with its reason |
| Planner.Plan | src/EdgeWARN/ctam/discovery.py:214-320 | the whole planner returns the specified order |
| Planner.CutCapacity | src/EdgeWARN/ctam/discovery.py:331-350 | the counting loop computes the specified cut |
| DiscoveryPipeline.WhoIsOrdered | src/EdgeWARN/ctam/discovery.py:152-320 | the execution order holds exactly the parsed, enabled modules, unique ignoring case, without a dependency path to a blocked module or a cycle |
| DiscoveryPipeline.WhoRuns | src/EdgeWARN/ctam/discovery.py:61-91 | of these the first eight run, as scanned and in that order, and nothing else does |
| DiscoveryPipeline.NoTwoFoldAlike | src/EdgeWARN/ctam/discovery.py:152-180 | no two modules that run have ids that differ only by case |
| DiscoveryPipeline.DiscoveryIsCanonical | src/EdgeWARN/ctam/discovery.py:61-91 | the whole discovery does not depend on the order of the scan |
| DiscoveryPipeline.CollectGroups | src/EdgeWARN/ctam/discovery.py:161-163 | the grouping loop collects exactly the ids that fold alike |
| DiscoveryPipeline.RejectCaseCollisions | src/EdgeWARN/ctam/discovery.py:152-180 | a candidate is rejected exactly when another folds to the same id, and the reason names all the others |
| DiscoveryPipeline.RejectDisabled | src/EdgeWARN/ctam/discovery.py:183-201 | exactly the discovered and disabled candidates are skipped |
| DiscoveryPipeline.ScreensExact | src/EdgeWARN/ctam/discovery.py:152-201 | a candidate is invalid with the colliding ids in order, skipped as switched off, or as it was |
| DiscoveryPipeline.DiscoverModules | src/EdgeWARN/ctam/discovery.py:87-91 | the pipeline of methods computes the specified discovery |
| Ordering.SortedIsSortSet | src/EdgeWARN/ctam/discovery.py:277-292 | a sorted listing without repetition depends only on its elements |
| Ordering.LeqExact | src/EdgeWARN/ctam/discovery.py:277-292 | the order is that of a dictionary: a prefix comes first, and otherwise the first difference decides |
| CycleStoreTheorems.RunsKeepInv | src/EdgeWARN/stormprob/database.py:309-464 | over any commits and imports every (cell, time, model) has no rows or exactly leads 15, 30, 45 and 60, and the tables agree |
| CycleStoreTheorems.BadForecastsRollBack | src/EdgeWARN/stormprob/database.py:127-149 | a conflicting duplicate or an incomplete group leaves every table unchanged |
| CycleStoreTheorems.NormalizeExact | src/EdgeWARN/stormprob/database.py:127-149 | normalisation fails exactly on conflicts and otherwise keeps one entry of each key |
| CycleStoreTheorems.GroupsExact | src/EdgeWARN/stormprob/database.py:309-375 | the groups collected are exactly the leads offered |
| CycleStoreTheorems.StoreForecastsExact | src/EdgeWARN/stormprob/database.py:377-412 | storing adds exactly the offered keys, owned by this cycle, and leaves every other row |
| CycleStoreContents.CommitExact | src/EdgeWARN/stormprob/database.py:309-375 | every row of every table after a commit: observations of the last record that names them, placeholders of the last record at their place, forecasts column by column, stale predictions gone, everything else unchanged |
| CycleStoreContents.ForecastStored | src/EdgeWARN/stormprob/database.py:377-412 | each forecast is stored in the row of its cell, time, lead and model with all its columns |
| CycleStoreContents.CommitAccepted | src/EdgeWARN/stormprob/database.py:309-412 | a commit is accepted if and only if its time is readable, every stored cell has a finite record of the right lengths, and its forecasts are well formed, of stored cells, free of contradictions and complete |
| CycleStoreContents.StoredOrSkipped | src/EdgeWARN/stormprob/database.py:331-336 | cells without an id or a time are passed over |
| CycleStoreContents.LastNamingExact | src/EdgeWARN/stormprob/database.py:415-464 | of several records for one row the last decides |
| CycleStoreTheorems.UpsertObservationKeepsModels | src/EdgeWARN/stormprob/database.py:415-464 | an observation with its placeholders leaves real forecasts alone |
| CycleStoreTheorems.NoStaleForecasts | src/EdgeWARN/stormprob/database.py:309-375 | under the invalidating policy a rewritten cell keeps no prediction of an earlier commit |
| CycleStoreTheorems.ReimportIsIdle | src/EdgeWARN/stormprob/database.py:718-740 | importing the same file again changes nothing, changed bytes fail, whatever happened in between |
| CycleStoreTheorems.CyclesStay | src/EdgeWARN/stormprob/database.py:309-335 | over any commits and imports no cycle is lost, and its state changes only to the committed one |
| LegacyImports.RowSurvivesExactly | src/EdgeWARN/stormprob/database.py:718-760 | an existing observation with its features and profile survives a first import unchanged if and only if no entry names it, a forecast row if and only if no entry shares the cell and time of a placeholder |
| LegacyImports.ImportOverwritesExact | src/EdgeWARN/stormprob/database.py:718-760 | the documented "no overwrites" holds of an import if and only if no entry names an existing row |
| LegacyImports.ImportCanOverwrite | src/EdgeWARN/stormprob/database.py:718-760 | a committed row that an accepted file takes over |
| CycleStoreContents.ImportExact | src/EdgeWARN/stormprob/database.py:718-760 | when a first import is accepted, and every row of every table after it |
| Repository.StormProbRepository.NormalizeForecasts | src/EdgeWARN/stormprob/database.py:127-149 | the loop over forecasts against its specification |
| Repository.StormProbRepository.CollectGroups | src/EdgeWARN/stormprob/database.py:309-375 | the grouping loop against its specification |
| Repository.StormProbRepository.WriteObservation | src/EdgeWARN/stormprob/database.py:415-464 | the upsert with its four placeholders against its specification |
| Repository.StormProbRepository.WriteForecasts | src/EdgeWARN/stormprob/database.py:377-412 | the forecast upserts against their specification |
| Repository.StormProbRepository.Commit | src/EdgeWARN/stormprob/database.py:309-375 | the writer transaction changes the database completely or not at all |
| Repository.StormProbRepository.Import | src/EdgeWARN/stormprob/database.py:718-760 | the legacy import as one writer transaction |
| ConfigPath.SplitFormat | src/edgewarn_cli/configure.py:61-90 | a path survives printing and splitting if and only if it is non-empty and has no empty segment |
| ConfigPath.FormatSplit | src/edgewarn_cli/configure.py:61-90 | every accepted text is the printing of its segments |
| ConfigPath.SplitEscapedPath | src/edgewarn_cli/configure.py:66-90 | the character loop computes the specified split |
| ConfigPath.TargetRoundTrip | src/edgewarn_cli/configure.py:93-106 | the command line reaches a leaf if and only if no segment is empty and the printed target does not look like a file name |
| ConfigPath.TargetExact | src/edgewarn_cli/configure.py:93-106 | a text is a target if and only if it prints a known catalog and a path below its root without empty segments, and does not look like a file name |
| ConfigPath.ExtensionKeyIsUnreachable | src/edgewarn_cli/configure.py:96-97 | a key that ends in the file extension is rejected although its path prints and splits faithfully |
| ConfigDocument.LeafAddressingExact | src/edgewarn_cli/tui.py:118-184 | a path resolves to a scalar exactly when its canonical form is listed with that value, and no path is listed twice |
| ConfigDocument.ListsEachScalarOnce | src/edgewarn_cli/tui.py:129-184 | the leaves are the document's scalars in document order |
| ConfigDocument.AssignSplices | src/edgewarn_cli/configure.py:328-334 | assignment through any accepted path replaces one block of leaves and keeps those before and after |
| ConfigDocument.AssignLeaf | src/edgewarn_cli/configure.py:328-334 | assignment through a listed path changes that leaf only |
| ConfigDocument.AssignLaws | src/edgewarn_cli/configure.py:327-334 | reading back, overwriting and restoring an assignment: every edit can be undone |
| ConfigDocument.AssignFailsAlike | src/edgewarn_cli/configure.py:109-136 | assignment fails exactly where resolution fails, with the same error |
| ConfigDocument.SelectExact | src/edgewarn_cli/configure.py:109-136 | which child a segment selects, leading zeros included, and the error of every segment that selects none |
| ConfigDocument.ParsePrint | src/edgewarn_cli/configure.py:125-126 | a printed index is read back as itself |
| ConfigDocument.ResolveLeaf | src/edgewarn_cli/configure.py:109-136 | the loop returns the parent and position of the addressed node, or the first error |
| ConfigDocument.Catalog.Visit | src/edgewarn_cli/tui.py:129-181 | the recursive visit appends exactly the specified leaves |
| ConfigEditor.Editor.EditConfiguration | src/edgewarn_cli/configure.py:304-356 | the edit with its rollback computes the specified outcome and files |
| ConfigEditor.EditIsSafe | src/edgewarn_cli/configure.py:304-356 | files change only on a reported edit or a failed rollback, no other file ever changes, and a sound catalogue stays sound |
| ConfigEditor.EditExact | src/edgewarn_cli/configure.py:304-356 | every outcome of an edit with the condition under which it is reported and the files that it leaves |
| ConfigEditor.EditChangesOneLeaf | src/edgewarn_cli/configure.py:304-363 | if the text printed for this edit parses back, the edited file shows one changed leaf, and writing the reported old value back undoes the edit |
| ConfigEditor.SomeLoaderEdits | src/edgewarn_cli/configure.py:304-363 | for every valid mapping and each of its leaves there is a loader under which the edit is done and parses back |
| Tiling.ChunksPartition | src/EWMRS/render/render.py:180-186 | every element lies in exactly one chunk of the grid |
| Tiling.TilesExact | src/EWMRS/render/render.py:178-189 | a chunk is scheduled exactly when it is the block at its position and has a finite element |
| Tiling.TilesRowMajor | src/EWMRS/render/render.py:180-181 | the schedule is strictly row-major |
| Tiling.Restores | scripts/verify_goes_tiles_conus.py:104-108 | pasting the files in any order brings every kept element back to its own place |
| Tiling.RestoresEverything | scripts/verify_goes_tiles_conus.py:102-110 | the reassembled array equals the stored-precision array, blank only where it is not finite |
| Tiling.SmallerGridCrops | scripts/verify_goes_tiles_conus.py:98-100 | without a recorded grid the picture is cropped at the top and nothing moves relative to the bottom |
| Tiling.ScheduleChunks | src/EWMRS/render/render.py:161-189 | the nested loops compute the specified schedule and reject indivisible arrays |
| Reassembly.Reconstruct | scripts/verify_goes_tiles_conus.py:75-110 | for any tiles the pasting loop succeeds exactly when the canvas can be allocated and every tile fits its slice, and each element then shows the last tile whose slice covers it |
| Reassembly.CanvasExact | scripts/verify_goes_tiles_conus.py:91-102 | the canvas is the recorded positive grid, or the smallest that reaches every tile |
| Reassembly.SliceExact | scripts/verify_goes_tiles_conus.py:104-108 | negative bounds count from the end, and a slice holds the indices between its bounds |
| Reassembly.FitsExact | scripts/verify_goes_tiles_conus.py:104-108 | a tile is accepted if and only if it is as long as its slice or single in each dimension |
| Reassembly.ShowsThePaintedGrid | scripts/verify_goes_tiles_conus.py:95-108 | tiles of a grid fit, and slice arithmetic places each on its square |
| Reassembly.ScriptInvertsTheCut | scripts/verify_goes_tiles_conus.py:75-110 | from the written files in any order and the recorded grid the script builds the stored-precision array, blank only where that is not finite |
| ChunkPublication.NeverMissing | src/EWMRS/render/render.py:225-251 | at every step of a re-render each chunk of the visible index is on disk unless the index write was lost, each file is wholly old or wholly new, and once the new index is visible every chunk of it holds this render's data |
| ChunkPublication.IndexedRenderHeals | src/EWMRS/render/render.py:225-251 | a render whose index became visible leaves an honest folder, whatever it found |
| ChunkHistories.AttemptExact | src/EWMRS/render/render.py:225-277 | after an attempt of any outcome, from any folder, readers miss exactly the listed chunks that its events account for |
| ChunkHistories.FailuresEndTheRender | src/EWMRS/render/render.py:225-251 | after a failed chunk write nothing is indexed or removed, and a failed removal ends the render |
| ChunkHistories.HistoryExact | src/EWMRS/render/render.py:225-277 | over any history of finished, failed, interrupted and index-losing renders readers miss exactly what the account of the events says |
| ChunkHistories.RenderSafeExactly | src/EWMRS/render/render.py:225-277 | every interleaving of a render keeps an honest folder honest if and only if it publishes again every chunk of the old index |
| ChunkHistories.PlanSafeExactly | src/EWMRS/render/render.py:225-277 | every history of a sequence of renders keeps an honest folder honest if and only if each publishes again what the first index and all before it published |
| ChunkPublication.FinishedExact | src/EWMRS/render/render.py:225-251 | a finished render leaves exactly its own chunks and index, whatever the order of its workers |
| ChunkPublication.LostIndexExact | src/EWMRS/render/render.py:273-277 | after a lost index write the old index is honest if and only if everything it names was published again |
| ChunkHistories.LostIndexLosesAChunk | src/EWMRS/render/render.py:225-277 | two renders from an empty folder leave an index that names a chunk which is not on disk |
| ChunkPublication.ReaderSeesTheRender | src/EWMRS/pipeline.py:277-333 | after a finished render the reader returns exactly the kept chunks in row-major order |
| ChunkPublication.ScheduleIsRowMajor | src/EWMRS/render/render.py:262 | sorting the index changes nothing, because the schedule is already sorted |
| ChunkPublication.CurrentRenderPaths | src/EWMRS/pipeline.py:299-331 | the index walk succeeds exactly when every listed chunk is in the grid and on disk |
| ChunkPublication.ReaderExact | src/EWMRS/pipeline.py:299-331 | the reader gets the listing in row-major order if and only if every listed chunk is in the grid and on disk |
| ChunkPublication.Writer.SaveChunks | src/EWMRS/render/render.py:225-251 | writing, indexing and clearing leave the specified folder for every completion order |
| ChunkPublication.Writer.WriteTimestampIndex | src/EWMRS/render/render.py:253-277 | the index lists the sorted positions, or stays as it was |
| Quantiser.DecodeEncode | src/EWMRS/rap/uint16_pipeline.py:149-166 | a value in range comes back to within half a step, a value outside as the nearer end exactly |
| Quantiser.BoundIsTight | src/EWMRS/rap/uint16_pipeline.py:164 | half a step is really lost somewhere |
| Quantiser.RoundsHalfToEven | src/EWMRS/rap/uint16_pipeline.py:164 | a value half way between two codes goes to the even one |
| Quantiser.EncodeDecode | scripts/plot_rap_uint16_fields.py:37-55 | every valid code survives decoding and encoding |
| Quantiser.CodeMonotone | src/EWMRS/rap/uint16_pipeline.py:163-165 | encoding is monotone |
| Quantiser.NodataIsReserved | src/EWMRS/rap/uint16_pipeline.py:156-165 | the reserved code stands exactly for values that are not finite or equal the missing value |
| Quantiser.ConstantsMustAgree | scripts/plot_rap_uint16_fields.py:22-54 | the decoder's constant restores the top of the range if and only if it is the catalogue's valid maximum |
| Quantiser.FieldRoundTrip | scripts/plot_rap_uint16_fields.py:47-55 | a stored field reads back as not-a-number where invalid and within half a step elsewhere |
| Quantiser.ScaleToUint16 | src/EWMRS/rap/uint16_pipeline.py:149-166 | the masked assignment encodes every element, and an empty range is an error |
| Quantiser.DecodeUint16Field | scripts/plot_rap_uint16_fields.py:37-55 | the masked assignment decodes every element, and a wrong size is an error |
| ProductIndex.IndexAndDirectories | src/EWMRS/rap/uint16_pipeline.py:278-323 | over any run the index lists, newest first in dictionary order, exactly the N newest indexed timestamps, and a clean-up leaves exactly the N newest directories and those whose removal failed |
| ProductIndex.IndexMatchesDirectories | src/EWMRS/rap/uint16_pipeline.py:278-323 | index and directories agree after a clean-up if and only if none of the N newest was left unindexed |
| ProductIndex.OnlineIndex | src/EWMRS/rap/uint16_pipeline.py:294-300 | truncating as one goes gives the index of everything seen |
| ProductIndex.NewestOfPart | src/EWMRS/rap/uint16_pipeline.py:303-323 | entries dropped once never matter again |
| ProductIndex.Product.UpdateProductIndex | src/EWMRS/rap/uint16_pipeline.py:278-301 | from any list of timestamps, repetitions included, the update computes the specified index |
| ProductIndex.Product.Cleanup | src/EWMRS/rap/uint16_pipeline.py:303-323 | the clean-up removes exactly the older directories except those whose removal fails, and counts them |
| Geometry.LonDeltaExact | src/EdgeWARN/stormprob/geometry.py:48-55 | the difference is congruent to the raw one, of least magnitude, and equal to it exactly when the flag is down |
| Geometry.LonDeltaPeriodic | src/EdgeWARN/stormprob/geometry.py:48-55 | a whole turn changes nothing except at exactly half a turn |
| Geometry.ToLocalEnKm | src/EdgeWARN/stormprob/geometry.py:58-74 | the loop converts every vertex and raises the flag exactly when some difference was unwrapped |
| Geometry.LocalExact | src/EdgeWARN/stormprob/geometry.py:58-74 | degrees north and east of the centroid become positive north and east kilometres, whichever way round the longitude is written |
| Geometry.TranslateInvariant | src/EdgeWARN/stormprob/geometry.py:77-81 | the area does not depend on the origin |
| Geometry.RotateInvariant | src/EdgeWARN/stormprob/geometry.py:77-81 | the area does not depend on the first vertex |
| Geometry.ReverseInvariant | src/EdgeWARN/stormprob/geometry.py:77-81 | reversal flips the sum and keeps the area |
| Geometry.ShoelaceIsFan | src/EdgeWARN/stormprob/geometry.py:77-81 | the sum adds up the signed triangles between any point and the edges |
| Geometry.RectangleArea | src/EdgeWARN/stormprob/geometry.py:77-81 | a rectangle has the product of its sides |
| Geometry.HitIsIntersection | src/EdgeWARN/stormprob/geometry.py:98-108 | an admissible radius times the direction is a point of the edge |
| Geometry.IntersectionIsHit | src/EdgeWARN/stormprob/geometry.py:98-108 | every point shared by the ray and an edge that is not nearly parallel is admissible |
| Geometry.RayExact | src/EdgeWARN/stormprob/geometry.py:84-110 | each entry is the distance of the outermost point shared with an edge that is not nearly parallel, cut at the cap, and zero for fewer than three vertices |
| Geometry.ParallelEdgeBounded | src/EdgeWARN/stormprob/geometry.py:98-110 | a point on an edge exactly along the ray is no farther out than the entry, if the two neighbouring edges are not nearly parallel |
| Geometry.RotateKeepsRay | src/EdgeWARN/stormprob/geometry.py:84-110 | the profile does not depend on the first vertex |
| Geometry.ReverseKeepsRay | src/EdgeWARN/stormprob/geometry.py:84-110 | the profile does not depend on the orientation |
| Geometry.PolygonToRadialProfile | src/EdgeWARN/stormprob/geometry.py:84-110 | the nested loops fill the specified profile, zeros for fewer than three vertices |

## Left out

- PublicationRuns.CrashRecovery: assumes an injective hash and targets that are distinct and not named like temporary parts. Crashes and I/O errors are unrestricted, in recovery as well; the conclusion is for runs that quarantined no journal, and PublicationRecovery.RecoverExact says what a recovery does to one.
- PublicationRecovery.RecoverExact: the targets of the journal are distinct, as they are in the program, which takes them from a dictionary.
- CommittedCycles.StoreBackedRecovery: the database is the cycle store of this model, changed only by commits and imports, so that a file replaced or restored from a backup is not covered; a missing or unreadable file is one that cannot be opened.
- Publication: failures of reads, of directory creation and of the quarantine directory are not modelled; JSON parsing is a predicate on bytes; callbacks are events that record what they could see; fresh identifiers are parameters.
- WorkingSetCommute.CommitsCommute: success and failure are the same in both orders, but the error code of a failing commit may differ, because a missing parent may have been created in between.
- Gate: `str.casefold` is modelled on ASCII letters only.
- WorkingSet: JSON numbers are reals, dictionaries are maps without order except where staged lists depend on it, encoded sizes are parameters. `_apply` edits a deep copy in place; the model edits a value, so that aliasing inside one entry is not captured. The snapshot call and the time fields are left out.
- WorkingSet: the error branch at src/EdgeWARN/ctam/transaction.py:212-219 for property creation is modelled although the gate never lets a path reach part of it.
- DiscoveryPipeline: the directory scan (src/EdgeWARN/ctam/discovery.py:94-149) is file-system access; it is taken to yield distinct ids and a manifest for each parsed module. Case folding is an arbitrary function, and reasons are data, not message text.
- CycleStore: SQL text, projections, backups and migrations are left out; timestamps are normalised by a parameter. An import whose first entry has only a nested timestamp, or whose content was imported under another path, fails as in the code.
- ConfigDocument: documents are trees, so that YAML aliases and anchors, which the enumeration skips, do not occur; digits are ASCII only; assignment builds a new tree.
- ConfigEditor: parsing, printing and the validators are parameters; the loader is a function of the files, so that a restored catalogue is as sound as before; locks and file modes are left out.
- ConfigEditor.EditChangesOneLeaf: under the assumption that the text printed for this one edit parses back to the edited document; YAML syntax is not part of this model.
- Reassembly: images are at least one row by one column and are read without error; file names are parsed already. The conversion to 16-bit floats is an arbitrary function of the element.
- ChunkPublication: names are positions, so that a file whose name has leading zeros is not distinguished; the product index and the age-based clean-up of whole timestamps are left out; chunk files are never empty.
- Quantiser: reals instead of floats; the catalogue's constants must satisfy 0 < valid maximum < reserved code < 65536.
- ProductIndex: starts from an empty layer; a corrupt index file, which the code discards, is not modelled.
- Geometry: reals instead of floats; the cosine of the latitude and the ray directions are parameters; the branch table of `radial_profile_for_cell` would add easy members.
- Geometry.RayExact: edges whose denominator lies strictly between 0 and 1e-10 in magnitude are skipped as in the code, and points on them are not bounded; for edges exactly along the ray see Geometry.ParallelEdgeBounded.
- HTTP server, subprocess supervision, readiness verdicts, GRIB and NetCDF decoding, reprojection, inference and plotting.
