# Alexandryn: verified models of the sync, catalogue, queue, cache, pairing and paging cores

Alexandryn is a self-hosted book library server. This project models the parts of it whose correctness
depends on several functions, or on every interleaving of several actors, and proves what they promise.
`dafny verify dfyconfig.toml` checks all of it.

Database statements are guarded row updates run under a lock or with a fenced `WHERE`; each is one atomic
step on a map of rows. Code that loops or updates state is a method or a class; the laws are lemmas over
step relations, runs and reachable states. Identifiers are natural numbers (or an abstract identifier type
where blankness matters), and clocks, random tokens and fresh ids are parameters of the step that uses them.

| module | what it models |
|---|---|
| `SyncDelta`, `SyncFeed` | one poll of the reading sync feed; write transactions, snapshots and polls over whole runs |
| `Digraph`, `MergeForest`, `WorkGraph`, `WorkEdits`, `WorkServices` | merge pointers as a forest, containment read through it, the services that edit both |
| `JobQueue`, `JobRuns`, `JobStore` | the leased job queue: rows, workers, reaper and admin as steps; runs; the store's statements |
| `ReaderCache`, `CacheStore` | the reference-counted cache of open archives: steps and invariants; the object itself |
| `Progress` | reconciliation of reading progress and its row-locked transactions |
| `Pairing`, `PairingRuns`, `PairingStore` | pairing sessions and devices: steps and invariants; runs; the transactions |
| `Grants` | single-use enrolment grants and the sweep of spent ids |
| `Ranking`, `LibraryCursor`, `LibraryPaging` | ordered listings, page cursors, keyset pagination of the library |
| `RateLimiter` | per-key token buckets with eviction |

Five properties are false of the code as it stands, and are stated with their exact condition and a witness:

- The feed compares xids at the gate and sequence numbers at the cursor. A sequence number can be drawn by a
  transaction whose xid is later than that of a writer with a higher sequence number. `SyncFeed.PassingPoll`
  says exactly which passed rows are delivered, `SyncFeed.NoCommittedWriteSkipped` assumes that the two orders
  agree, and `SyncFeed.OrderIsNeeded` is a run in which a row is lost without it.
- `RecordMerge` checks that the target does not contain the source, not the other direction.
  `WorkEdits.MergeAcyclicExactly` gives the exact condition for one call and `WorkEdits.RunAcyclicExactly` for
  whole runs; `WorkEdits.UncheckedDirectionMatters` is two works that show it is needed.
- Revoking an open pairing session reads the row and later writes it back, outside any transaction
  (internal/transport/http/network.go:659-681). A device that consumes the session in between has its consumed
  row overwritten by an expired one, and is itself not revoked. `PairingRuns.ConsumedIsFinalExactly` gives the
  exact condition, `PairingRuns.RevocationRacesConsumption` the run.
- The pure fold of progress reports from no record takes the first report unseen, so a negative observed epoch,
  which the API refuses before it gets there, would make order matter: `Progress.NegativeEpochMatters` is a pair of
  such reports, `Progress.FromNoneOrderExactly` the exact condition.
- `CancelJob` moves queued and retrying rows straight to `dead_letter`, which the lifecycle table in
  internal/jobs/job.go does not list. `JobRuns.LegalTransition` says that exactly these changes are outside the
  table, `JobRuns.CancelLeavesTheTable` gives a run of each kind.

## Model

| member | source | states |
|---|---|---|
| `SyncDelta.GetReadingSyncData` | internal/persistence/postgres/reading_sync_repository.go:65-277 | three gated queries of at most 500 rows each, all in sequence order, and the cursor rule |
| `SyncDelta.RunQuery` | internal/persistence/postgres/reading_sync_repository.go:121-130 | a query returns the lowest sequences among the eligible rows, once each, up to its limit |
| `SyncDelta.CollectRows` | internal/persistence/postgres/reading_sync_repository.go:227-249 | the loop keeps every row and leaves the highest sequence seen |
| `SyncDelta.CapCursor` | internal/persistence/postgres/reading_sync_repository.go:260-275 | the cursor never passes the end of a cut-off page, and is the lowest such end or the highest delivered sequence |
| `SyncDelta.CursorFacts` | internal/persistence/postgres/reading_sync_repository.go:260-275 | the cursor moves exactly when the response is not empty, and then to the sequence of a delivered row |
| `SyncDelta.DeltaComplete` | internal/persistence/postgres/reading_sync_repository.go:255-275 | with unique sequences per table, every gated row between `since` and the cursor is in the response |
| `SyncDelta.DeltaSound` | internal/persistence/postgres/reading_sync_repository.go:121-130 | nothing outside the scope, the window or the gate is delivered |
| `SyncDelta.DeltaRows` | internal/persistence/postgres/reading_sync_repository.go:121-130 | each part of a response holds rows of its own table, inside scope, window and gate, in sequence order, once each, at most 500 |
| `SyncDelta.PollProgress` | internal/persistence/postgres/reading_sync_repository.go:255-275 | each poll retires at least 500 rows or all that remain |
| `SyncDelta.DrainBound` | internal/persistence/postgres/reading_sync_repository.go:50-55 | draining N rows of unchanging tables takes at most floor(N/500) + 1 non-empty polls |
| `SyncDelta.EmptyMeansDrained` | internal/persistence/postgres/reading_sync_repository.go:65-277 | an empty response means exactly that nothing remains |
| `SyncDelta.DrainComplete` | internal/persistence/postgres/reading_sync_repository.go:50-55 | once drained, every row was in some response |
| `SyncFeed.InvAt` | internal/persistence/postgres/reading_sync_repository.go:99-119 | in every reachable state sequences are unique over all versions, pending ones included, and committed xids are not in flight |
| `SyncFeed.LateCommit` | internal/persistence/postgres/reading_sync_repository.go:99-110 | what commits later was, at any earlier time, in flight or not yet begun, so not below the gate |
| `SyncFeed.PassingPoll` | internal/persistence/postgres/reading_sync_repository.go:99-129 | the poll at which a cursor passes a committed version delivers it exactly when it was not superseded and was below the gate; otherwise a row with a later sequence and an earlier xid overtook it |
| `SyncFeed.NoCommittedWriteSkipped` | internal/persistence/postgres/reading_sync_repository.go:99-129 | over any interleaving, if sequence order agrees with xid order, every version at or below a cursor was delivered by the poll that passed it or was already superseded |
| `SyncFeed.CurrentRowsDelivered` | internal/persistence/postgres/reading_sync_repository.go:99-129 | under the same hypothesis every current row at or below a device's cursor has been sent to it |
| `SyncFeed.SupersededForever` | internal/persistence/postgres/reading_sync_repository.go:99-129 | a superseded version never becomes current again |
| `SyncFeed.PassedInFlightIsLost` | internal/persistence/postgres/reading_sync_repository.go:99-110 | a write passed while in flight is never delivered to that device, whenever it commits |
| `SyncFeed.OrderIsNeeded` | internal/persistence/postgres/reading_sync_repository.go:99-129 | a run of two crossed writers in which a current row below the cursor was never delivered |
| `MergeForest.ResolveCanonicalWork` | internal/domain/resolve_work.go:92-110 | the pointer-chasing loop computes the canonical work, or reports a missing work or a cycle |
| `MergeForest.CanonMeaning` | internal/domain/resolve_work.go:92-110 | it succeeds exactly with the existing end of the merge chain, reports not-found exactly when the chain ends outside the catalogue, and a cycle exactly when it has no end |
| `MergeForest.CanonIsRoot` | internal/domain/resolve_work.go:87-110 | a canonical work is unmerged and is its own canonical work |
| `MergeForest.FindMergedInto` | internal/domain/resolve_work.go:114-136 | one hop: exactly the works pointing at the given one, once each |
| `MergeForest.CollectMergeGroup` | internal/domain/resolve_work.go:112-136 | from any work not on a merge cycle the search without a visited set ends, and lists without repeats exactly the works whose chain passes through it; for a canonical work these are exactly the works that resolve to it |
| `WorkGraph.VisitContains` | internal/domain/resolve_work.go:167-178 | one work's references are resolved and added to closure and queue, or the first failure is reported |
| `WorkGraph.ExpandGroup` | internal/domain/resolve_work.go:155-179 | expanding one merge group adds every resolved edge that leaves it |
| `WorkGraph.ContainsClosure` | internal/domain/resolve_work.go:138-181 | the search ends and returns exactly the canonical works reachable by one or more resolved containment edges |
| `WorkEdits.CanonDetach` | internal/domain/work_merge_service.go:52-62 | after an undo, the works whose chain passed through the source resolve to it and all others as before |
| `WorkEdits.UndoKeepsAcyclic` | internal/domain/work_merge_service.go:52-62 | undoing a merge maps any finer cycle onto a coarser one, so it creates none |
| `WorkEdits.CanonAttach` | internal/domain/work_merge_service.go:40-48 | merging a root renames its canonical id to the target's, and nothing else |
| `WorkEdits.MergeAcyclicExactly` | internal/domain/work_merge_service.go:23-84 | an accepted merge keeps the forest, and keeps containment acyclic if and only if the detached source does not reach what the target means |
| `WorkEdits.GroupCheckSuffices` | internal/domain/work_merge_service.go:64-84 | it suffices that the source's whole group does not reach the target's canonical work |
| `WorkEdits.UncheckedDirectionMatters` | internal/domain/work_merge_service.go:64-84 | two works, one containing the other, whose accepted merge closes a cycle |
| `WorkEdits.UndoReversesMerge` | internal/domain/work_merge_service.go:23-62 | undo right after merge restores the whole catalogue, hence every resolved view, exactly when the source was unmerged |
| `WorkEdits.AddReference` | internal/domain/work_containment_service.go:44-56 | adding a reference adds exactly one resolved edge |
| `WorkEdits.AddContainsExactly` | internal/domain/work_containment_service.go:27-57 | the two checks reject exactly the references that would close a cycle |
| `WorkEdits.RemoveReference` | internal/domain/work_containment_service.go:61-77 | removing a reference only removes resolved edges |
| `WorkEdits.ApplyAcyclicExactly` | internal/domain/work_merge_service.go:23-84 | of all service calls, exactly the merges whose source contains their target break acyclicity |
| `WorkEdits.RunKeepsForest` | internal/domain/work_merge_service.go:86-115 | over any run of service calls merge pointers stay a forest and every reference resolves |
| `WorkEdits.RunKeepsAcyclic` | internal/domain/work_containment_service.go:22-77 | over any run with clear merges resolved containment stays acyclic |
| `WorkEdits.RunAcyclicExactly` | internal/domain/work_merge_service.go:23-84 | containment is acyclic after every prefix of a run if and only if every merge of the run is clear |
| `WorkServices.WorkCatalogue.SourceReachableFromTarget` | internal/domain/work_merge_service.go:91-115 | true exactly when the source lies on the target's merge chain |
| `WorkServices.WorkCatalogue.WouldCreateSelfContainment` | internal/domain/work_merge_service.go:69-84 | true exactly when the target's canonical work reaches the source's through containment |
| `WorkServices.WorkCatalogue.RecordMerge` | internal/domain/work_merge_service.go:23-49 | accepted exactly when both works exist, the source is not on the target's chain and the target does not contain the source; then one pointer of one work changes and nothing else, otherwise nothing does |
| `WorkServices.WorkCatalogue.UndoMerge` | internal/domain/work_merge_service.go:52-62 | clears the one pointer of the one work and nothing else, or reports a missing work |
| `WorkServices.WorkCatalogue.AddContains` | internal/domain/work_containment_service.go:27-57 | accepted exactly when both works exist, mean different works and the reference closes no cycle; then it is appended to the one list and nothing else changes |
| `WorkServices.WorkCatalogue.RemoveContains` | internal/domain/work_containment_service.go:61-77 | exactly the references to the containee go from the container's list, the others stay in order, and nothing else changes |
| `WorkServices.Compact` | internal/domain/work_containment_service.go:66-72 | the compaction loop keeps every other reference, in order |
| `WorkServices.WorkCatalogue.ResolveWork` | internal/domain/resolve_work.go:30-85 | every member of a group gets the same canonical id, the canonical work's title, subtitle and language, and the duplicate-free union of authors, subjects, external references and contained works, the canonical work's own first and in its order |
| `WorkServices.AppendUnseen` | internal/domain/resolve_work.go:53-83 | the items not seen before are appended, each once, in the order in which they first come |
| `WorkServices.WorkCatalogue.IsInLibrary` | internal/domain/is_in_library.go:9-35 | true exactly when an entry exists for an edition of some work with the same canonical work |
| `JobQueue.MatchingTokenMatchesAttempts` | internal/jobs/store.go:102-110 | a row whose token matches a worker's snapshot has the snapshot's attempts and kind |
| `JobQueue.InvStep` | internal/jobs/store.go:75-270 | every step keeps: running exactly when locked_until is set, retrying below the attempt budget, tokens minted for this row at this attempt |
| `JobRuns.FencedWrite` | internal/jobs/store.go:128-190 | a worker write that changes anything changes one row, which runs under the very claim that minted the presented token |
| `JobRuns.SupersededTokenStaysDead` | internal/jobs/store.go:233-270 | once no row runs under a token, none ever does again |
| `JobRuns.SupersededWorkerIsHarmless` | internal/jobs/store.go:128-190 | a worker presenting a superseded token leaves the whole state unchanged |
| `JobRuns.TerminalRowsFrozen` | internal/jobs/store.go:333-424 | a terminal row never changes; only a completed one can be deleted, and its id is not reused |
| `JobRuns.AtMostOneTerminalWrite` | internal/jobs/store.go:142-172 | each job gets at most one accepted terminal write in any run |
| `JobRuns.WhyJobsEnd` | internal/jobs/engine.go:255-260 | a job ends only by its worker's completion, by its worker's failure for good cause or with its attempts spent, by the reaper with its attempts spent, or by a cancel |
| `JobRuns.ReaperEndsSpentJobsOnly` | internal/jobs/store.go:251-262 | the reaper ends a job exactly when it has been claimed as often as its budget allows, and otherwise sends it back with its progress |
| `JobRuns.LegalTransition` | internal/jobs/job.go:46-64 | a status change is in the lifecycle table if and only if it is not the cancel of a queued or retrying job |
| `JobRuns.LegalTransitionAt` | internal/jobs/store.go:333-363 | the same at every event of every run |
| `JobRuns.TableIsTight` | internal/jobs/job.go:46-64 | the table lists a change if and only if some run makes it without an admin: none is missing, none is idle |
| `JobRuns.CancelLeavesTheTable` | internal/jobs/store.go:333-363 | two runs, a queued and a retrying job cancelled, whose last change the table refuses |
| `JobRuns.BudgetStep` | internal/jobs/engine.go:318-328 | twice the attempts left, plus one when running, drops at every status change |
| `JobRuns.BoundedWork` | internal/jobs/queue.go:69-76 | a job changes status at most 2 * max_attempts times |
| `JobRuns.AttemptsCountClaims` | internal/jobs/store.go:102-110 | the attempt column counts the claims of the whole run, so no job is handed out more often than its budget |
| `JobRuns.NeverStuck` | internal/jobs/store.go:84-110 | a job that has not ended can be claimed or reclaimed at some time after any given one |
| `JobRuns.HeldStep` | internal/jobs/store.go:128-136 | a step within the lease leaves the job with its holder unless the holder or an admin ends it |
| `JobRuns.LeaseHolds` | internal/jobs/store.go:200-262 | over any stretch in which no event comes later than the lease after the holder's last beat, and the holder has not finished nor an admin cancelled, the holder keeps the job and nobody claims or reclaims it |
| `JobRuns.LeaseIsExclusive` | internal/jobs/engine.go:262-287 | under a non-decreasing clock, if each heartbeat and the finish come within the lease of the beat before or of the claim, nobody claims or reclaims the job until its holder finishes it or an admin cancels it |
| `JobRuns.TimelyCompletionCounts` | internal/jobs/engine.go:302-316 | such a holder's completion is always accepted, heartbeats or none |
| `JobRuns.ReclaimMeansLate` | internal/jobs/store.go:233-262 | a held job is reclaimed only when more than the lease has passed since its holder's last beat, and is never claimed |
| `JobRuns.ClaimOpensLease` | internal/jobs/store.go:102-118 | a claim starts such a tenure |
| `JobStore.Store.Enqueue` | internal/jobs/store.go:52-65 | an enqueue step: one fresh queued row of this kind and budget, ready from the given time, and no other row touched; or a refusal of a non-positive budget or a taken id that changes nothing |
| `JobStore.Store.EnqueueKind` | internal/jobs/queue.go:49-80 | an unregistered kind is refused; otherwise a fresh queued row with the registered budget, ready now |
| `JobStore.Store.ClaimNext` | internal/jobs/store.go:75-116 | a claim step on a queued or retrying job that is due, of an asked-for kind and unlocked, none of which is due earlier; it runs under a token never minted, with the lease and one more attempt, all else kept; none is claimed only if there is none |
| `JobStore.Store.Reread` | internal/jobs/store.go:118-122 | the re-read after the commit returns the row as it is by then, and that is the snapshot the worker holds |
| `JobStore.Store.Heartbeat` | internal/jobs/store.go:128-136 | for every worker whose snapshot has this token it is that worker's heartbeat step, and only the lease of the one row moves; a token that does not hold the row changes nothing |
| `JobStore.Store.Complete` | internal/jobs/store.go:142-151 | for every worker whose snapshot has this token it is that worker's complete step: the row is completed now, its work kept; a token that does not hold the row changes nothing |
| `JobStore.Store.Fail` | internal/jobs/store.go:159-172 | for every worker that decides as the engine does it is that worker's fail step; the queue's invariant survives unless a job without attempts left is sent to retry |
| `JobStore.Store.FinishFailure` | internal/jobs/engine.go:255-342 | the engine's decision: dead letter exactly when the error is permanent or the row's attempts are spent, else retrying at the given time; always a step of the queue |
| `JobStore.Store.UpdateProgress` | internal/jobs/store.go:178-190 | for every worker whose snapshot has this token it is that worker's progress step, and only the progress of the one row changes; a token that does not hold the row changes nothing |
| `JobStore.Store.ReclaimOne` | internal/jobs/store.go:233-270 | exactly when the row is running past its lease: retrying after the backoff while attempts are left, dead letter now when they are spent, unlocked, its attempts and progress kept, under a token that no worker's snapshot has |
| `JobStore.Store.RecoverStale` | internal/jobs/store.go:200-231 | one sweep does that to exactly the rows running past their lease, each once, and leaves every other row as it was; it is one reclaim step per job |
| `JobStore.Store.CancelJob` | internal/jobs/store.go:333-363 | a job that has not ended becomes a dead letter now, its work kept, no other row touched; a missing or ended one is reported and nothing changes |
| `JobStore.Store.RetryJob` | internal/jobs/store.go:369-414 | a fresh queued record of the dead-letter job's kind and budget, ready now, all old rows as they were |
| `JobStore.Store.ClearCompleted` | internal/jobs/store.go:417-424 | exactly the jobs completed at or before the cutoff are deleted, the rest are as they were, and the count is returned |
| `ReaderCache.DrainsOnlyFree` | internal/reader/content/cache.go:192-213 | every entry closed at capacity was unreferenced and unflagged, and the rest are untouched |
| `ReaderCache.EvictsRepays` | internal/reader/content/cache.go:188-227 | after eviction only referenced entries are flagged and at most maxOpen are not |
| `ReaderCache.EvictsFairly` | internal/reader/content/cache.go:192-227 | eviction at capacity without its loop: only free entries are closed, none used later than a free one that stays, never below capacity; if it is still exceeded, exactly the least recently used unflagged entry is flagged |
| `ReaderCache.LoadedAccounts` | internal/reader/content/cache.go:126-153 | a finished load never overwrites a live entry |
| `ReaderCache.StepKeeps` | internal/reader/content/cache.go:102-227 | every step keeps: reference counts equal outstanding handles, nothing both loaded and in flight, every archive open or cleaned once, over-capacity repaid |
| `ReaderCache.PinnedNeverCleaned` | internal/reader/content/cache.go:156-186 | while a handle is out, its archive is in the map and has not been cleaned up |
| `ReaderCache.OpenIsHeld` | internal/reader/content/cache.go:102-227 | open archives are exactly those in the map; every other one ever loaded was cleaned exactly once |
| `ReaderCache.CapacityRepaid` | internal/reader/content/cache.go:188-227 | the size never exceeds maxOpen plus outstanding handles, and is at most maxOpen once they are released |
| `ReaderCache.WarmIsHit` | internal/reader/content/cache.go:102-112 | over any run, an edition used at time t and not evicted for capacity since is answered from its open archive by any acquire before t plus the idle time |
| `CacheStore.ArchiveCache.SweepLocked` | internal/reader/content/cache.go:178-186 | closes exactly the unreferenced entries unused for the idle time, and leaves the rest as they were |
| `CacheStore.ArchiveCache.FindLru` | internal/reader/content/cache.go:195-210 | the least recently used candidate, or none exactly when there is none |
| `CacheStore.ArchiveCache.EvictLRULocked` | internal/reader/content/cache.go:192-227 | closes free entries in least-recently-used order until capacity is met, else flags one pinned entry |
| `CacheStore.ArchiveCache.Acquire` | internal/reader/content/cache.go:102-128 | a hit exactly when the edition is open and referenced or used within the idle time, and then its open archive with one more reference, used now; otherwise a wait exactly when a load is in flight, else a load |
| `CacheStore.ArchiveCache.FinishLoad` | internal/reader/content/cache.go:126-153 | a failed load only leaves the flight table; a finished one is in the map, referenced once and used now, with its handle out, and capacity is settled fairly |
| `CacheStore.ArchiveCache.Release` | internal/reader/content/cache.go:156-173 | one release drops one reference and marks the use; the last one of a flagged entry closes it; a second release does nothing |
| `Progress.FoldIsMaximum` | internal/domain/reconcile_progress.go:53-75 | folding reports keeps the epoch and yields the maximum of the record and all reports not behind it |
| `Progress.FoldOrderIrrelevant` | internal/domain/reconcile_progress.go:53-75 | the same multiset of reports in any order gives the same epoch and percentage |
| `Progress.FoldFromNoneIsMaximum` | internal/domain/reconcile_progress.go:53-91 | from no record, the result is epoch 0 and the maximum of all reports |
| `Progress.FoldFromNoneOrderIrrelevant` | internal/domain/reconcile_progress.go:53-91 | from no record, order is irrelevant for reports with a non-negative observed epoch |
| `Progress.NegativeEpochMatters` | internal/domain/reconcile_progress.go:81-91 | two reports, one with a negative epoch, for which order matters |
| `Progress.FromNoneOrderExactly` | internal/domain/reconcile_progress.go:53-91 | for any reports: from no record all orders agree if and only if the highest report is not behind epoch 0 or all are equally high |
| `Progress.FoldProvenance` | internal/domain/reconcile_progress.go:53-75 | the result is the record itself, or has percentage, position, device and time of the first report reaching the maximum, under the same identity and epoch |
| `Progress.ProgressService.ReportProgress` | internal/reader/api/progress.go:32-72 | field by field: the first report becomes the row at epoch 0; an override takes all of the report's values at the next epoch; a report at or past the epoch with a higher percentage takes them at the same epoch; anything else writes nothing; the outcome says which |
| `Progress.RunIsRowwise` | internal/reader/api/progress.go:32-72 | any interleaving over many works is, for each work, its own transactions in lock order |
| `Progress.EvolveIsFold` | internal/domain/reconcile_progress.go:53-75 | without overrides that is the pure fold, from an existing row |
| `Progress.EvolveFromNoneIsFold` | internal/reader/api/progress.go:32-72 | and the fold from none when there is no row, whether or not the creating transaction is an override |
| `Progress.InterleavingIsFold` | internal/reader/api/progress.go:32-72 | any interleaving of reports leaves, for each work, the fold of that work's reports in lock order |
| `Progress.EvolveNeverDecreases` | internal/domain/reconcile_progress.go:93-112 | a row never moves down lexicographically and its epoch counts its overrides |
| `Progress.StoredNeverDecreases` | internal/reader/api/progress.go:32-72 | the same over any run of the store |
| `Progress.EpochCountsOverrides` | internal/domain/reconcile_progress.go:93-112 | the epoch of a row is the number of overrides after the transaction that created it |
| `Progress.AcceptedNeverLost` | internal/reader/api/progress.go:32-72 | after a report is accepted as advanced the store stays at or above it |
| `Progress.OldEpochIgnored` | internal/domain/reconcile_progress.go:53-75 | after an override, a report from an older epoch leaves the store untouched |
| `Progress.OverrideSetsTheFloor` | internal/domain/reconcile_progress.go:93-112 | after an override and any later reports the row is at the next epoch, at the override's own values or those of the first later report that reached the maximum |
| `Pairing.PairingSession.ExpireAt` | internal/domain/device_pairing.go:246-253 | expires a stale open session and nothing else |
| `Pairing.PairingSession.CheckAdvanceable` | internal/domain/device_pairing.go:263-283 | refuses terminal, stale and wrong-state sessions in that order; expiring is its only change |
| `Pairing.PairingSession.Verify` | internal/domain/device_pairing.go:290-307 | succeeds exactly for an unexpired pending session with a device id and the right code; a wrong code changes nothing; the row stays loadable |
| `Pairing.PairingSession.Consume` | internal/domain/device_pairing.go:313-319 | succeeds exactly for an unexpired verified session; the row stays loadable |
| `Pairing.StepKeeps` | internal/persistence/postgres/pairing_session_repository.go:88-201 | every step keeps: each stored row passes the rehydration check, codes are unique, consumed rows and devices match past enrolments |
| `Pairing.StepFate` | internal/persistence/postgres/paired_device_repository.go:101-177 | no step changes an owner, lifts a revocation, gives a revoked device an owner, lowers a cursor, deletes an owned device or brings one back |
| `PairingRuns.StoredSessionsRehydrate` | internal/domain/device_pairing.go:172-220 | in every reachable state a stored session has its identifiers and a code, lives at most five minutes, and has a device exactly when consumed, so it passes the strict check; no two share a code |
| `PairingRuns.ConsumedAtMostOnce` | internal/persistence/postgres/pairing_verify.go:54-93 | over a whole run no session is consumed twice and no device enrolled twice, deleted rows included |
| `PairingRuns.OneDevicePerSession` | internal/persistence/postgres/migrations/00010_phase13_network.sql:34-34 | no two devices ever name the same session, so the unique index is never violated |
| `PairingRuns.NeverReopened` | internal/domain/device_pairing.go:236-241 | a terminal session is never pending or verified again |
| `PairingRuns.ExpiredIsFinal` | internal/domain/device_pairing.go:236-253 | an expired row never changes again |
| `PairingRuns.ConsumedIsFinalExactly` | internal/transport/http/network.go:659-681 | a consumed row stays as it is in every continuation if and only if, at that moment, no revocation request holds a copy of the session |
| `PairingRuns.ConsumedUntilOverwritten` | internal/transport/http/network.go:659-681 | between two states of a run it stays as it is if and only if no such copy is written back over it |
| `PairingRuns.RevocationRacesConsumption` | internal/transport/http/network.go:659-681 | the race: a consumed session is overwritten as expired while its device stays unrevoked and can be claimed |
| `PairingRuns.SweepExactly` | internal/persistence/postgres/network_sweep.go:37-80 | an uninterrupted sweep, without naming its statements: sessions go exactly a day after expiry whatever their state, open ones past their time expire, unclaimed devices go after an hour, links go with their session |
| `PairingRuns.DeviceWaitsForOwner` | internal/persistence/postgres/network_sweep.go:74-80 | through every sweep of the hour after an enrolment, longer than its grant lives, the device stays linked to its session and claimable unless revoked or claimed |
| `PairingRuns.DeviceLife` | internal/persistence/postgres/paired_device_repository.go:101-177 | over a whole run an owner and a revocation are kept, cursors never fall, owned devices are not deleted, deleted ones never return |
| `PairingRuns.RevocationHolds` | internal/persistence/postgres/paired_device_repository.go:121-156 | from a revocation on, by device or by session, the device is revoked as of then, keeps the owner it had or none, cannot be claimed, and its cursor stands still |
| `PairingRuns.ClaimHolds` | internal/persistence/postgres/paired_device_repository.go:101-119 | the unclaimed device of a session gets the claiming user as owner, and keeps owner and row for good |
| `PairingRuns.CursorHolds` | internal/persistence/postgres/paired_device_repository.go:158-177 | an advanced cursor stands at the given value and never falls below it |
| `PairingRuns.RevokedNeverOwned` | internal/persistence/postgres/paired_device_repository.go:101-119 | a device revoked before it was claimed never gets an owner |
| `PairingStore.PairingDb.Initiate` | internal/transport/http/network.go:108-120 | accepted exactly for present ids, a time to live within five minutes and a code not in use; then one pending session with these values is stored, otherwise nothing |
| `PairingStore.PairingDb.VerifyAndConsume` | internal/persistence/postgres/pairing_verify.go:33-99 | succeeds exactly when the trimmed label fits, the device id is new and a pending unexpired session has the code; then that session is consumed by the device and one unowned, unrevoked device linked to it is stored; otherwise nothing changes |
| `PairingStore.TrimExactly` | internal/persistence/postgres/pairing_verify.go:41-50 | trimming takes away all white space at both ends and nothing else |
| `PairingStore.PairingDb.FindPending` | internal/persistence/postgres/pairing_session_repository.go:153-165 | finds the only row that can match |
| `PairingStore.PairingDb.FindForRevocation` | internal/transport/http/network.go:659-669 | returns the session of this administrator only |
| `PairingStore.PairingDb.RevokeCopy` | internal/transport/http/network.go:673-681 | a consumed copy revokes exactly the unrevoked devices of the session; an open copy makes the stored row expired without a device, whatever it was, or brings a missing row back expired unless its code is in use |
| `PairingStore.PairingDb.SweepOnce` | internal/persistence/postgres/network_sweep.go:55-80 | three statements in order, each a step of its own, with counts that match the rows expired and deleted |
| `PairingStore.SweepStepsAreSwept` | internal/persistence/postgres/network_sweep.go:55-80 | the three steps with nothing in between are the uninterrupted sweep that `PairingRuns.SweepExactly` describes |
| `PairingStore.PairingDb.AssignOwnerByPairingSession` | internal/persistence/postgres/paired_device_repository.go:101-119 | exactly the unowned, unrevoked devices of the session get this owner and nothing else changes; success says that one did |
| `PairingStore.PairingDb.RevokeByPairingSession` | internal/persistence/postgres/paired_device_repository.go:137-156 | exactly the unrevoked devices of the session are revoked now, claimed or not, and nothing else changes; success says that one was |
| `PairingStore.PairingDb.RevokeDevice` | internal/persistence/postgres/paired_device_repository.go:121-135 | succeeds exactly for a stored, unrevoked device, which is then revoked now, its other columns and all else unchanged |
| `PairingStore.PairingDb.AdvanceDeviceCursor` | internal/persistence/postgres/paired_device_repository.go:158-177 | on success the stored cursor is the greater of the two and nothing else changes; a revoked or missing device, or an unclaimed one with nothing to advance, is an error |
| `Grants.SpentIds.Claim` | internal/persistence/postgres/enrolment_grant_repository.go:23-34 | true only for a login whose grant was never honoured before; otherwise the id was on record |
| `Grants.SpentIds.Verify` | internal/auth/enrolment_grant.go:71-93 | a login's check is a step of its own, separate from its claim |
| `Grants.SignedGrantVerifies` | internal/auth/enrolment_grant.go:53-93 | a signed grant names its session and id, verifies in whole seconds exactly until ten minutes after issue, and only for its issuer |
| `Grants.OthersNeverVerify` | internal/auth/enrolment_grant.go:71-93 | a token of another type, without a session or of another issuer never verifies |
| `Grants.SpentIds.Spend` | internal/transport/http/auth_handlers.go:61-77 | an uninterrupted login is honoured exactly when the grant verifies and was never honoured before, swept record or not |
| `Grants.SpentIds.DeleteSpent` | internal/persistence/postgres/network_sweep.go:82-88 | deletes exactly the ids spent at or before the cutoff, and keeps the invariant |
| `Grants.InvStep` | internal/transport/http/auth_handlers.go:61-77 | every step keeps: an accepted id is on record, or its grant has expired for longer than any login takes from check to claim |
| `Grants.EarlySweepAllowsReplay` | internal/persistence/postgres/network_sweep.go:82-88 | with a shorter retention, a run in which a login that verified late claims a swept id, and one grant is honoured twice |
| `Grants.SingleUseExactly` | internal/auth/enrolment_grant.go:27-93 | grants are single-use over every run if and only if spent ids are kept for a grant's life and the longest delay between check and claim |
| `Grants.ConfiguredSweepIsSafe` | internal/persistence/postgres/network_sweep.go:82-88 | the configured retention is safe if and only if no login takes more than an hour from check to claim |
| `LibraryCursor.TitleRoundTrip` | internal/domain/library_query.go:113-132 | a title cursor decodes to what was encoded exactly when title and id hold no NUL and the id is not empty, and is never misread |
| `LibraryCursor.TitleCursorCanonical` | internal/domain/library_query.go:119-132 | an accepted cursor is the encoding of what it decodes to |
| `LibraryCursor.AddedAtRoundTrip` | internal/domain/library_query.go:87-110 | the same for added-at cursors, given a faithful text form of times |
| `LibraryCursor.ValidatedTitleRoundTrips` | internal/domain/validate.go:18-31 | the cursor of a validated title always comes back as that title |
| `LibraryCursor.ValidationExactly` | internal/domain/validate.go:18-31 | accepted exactly: something besides white space, within bounds, no control character |
| `Ranking.Fetch` | internal/persistence/postgres/work_repository.go:395-408 | ORDER BY with LIMIT: the first n rows of a set in a strict order |
| `Ranking.TopIsPrefix` | internal/persistence/postgres/work_repository.go:395-408 | the first n rows are the prefix of the one sorted listing |
| `LibraryPaging.PoolIsDated` | internal/persistence/postgres/work_repository.go:316-358 | whatever the filter, every pooled work has an added-at and its own id |
| `LibraryPaging.PoolMeans` | internal/persistence/postgres/work_repository.go:316-358 | which works each filter selects, said of their entries and memberships, and what a row tells of its work |
| `LibraryPaging.OwnCursorAccepted` | internal/persistence/postgres/work_repository.go:521-533 | the server accepts its own cursor exactly when the cursor can carry the row's key |
| `LibraryPaging.CursorSelectsAfter` | internal/persistence/postgres/work_repository.go:395-408 | the cursor's condition selects exactly the rows sorted after the row it was made from |
| `LibraryPaging.QueryLibrary` | internal/persistence/postgres/work_repository.go:271-538 | one page: a malformed cursor is the only refusal; otherwise the first rows past the cursor, at most the limit, each telling of its work truly, all owned under "owned" and none under "wanted", and a next cursor exactly when more remain |
| `LibraryPaging.PageIsSlice` | internal/persistence/postgres/work_repository.go:476-533 | wherever a cursor stands in the sorted pool, its page is the next slice |
| `LibraryPaging.SortedPool` | internal/persistence/postgres/work_repository.go:395-408 | the pool has a sorted listing with each work once |
| `LibraryPaging.PagesListThePool` | internal/persistence/postgres/work_repository.go:271-538 | any chain of pages from the empty cursor never meets a refused cursor, is bounded in length, and concatenates to the sorted pool |
| `LibraryPaging.ValidatedPagesListThePool` | internal/domain/validate.go:18-31 | for works whose titles passed validation, under non-empty ids without NUL, any finished chain of pages is the sorted pool |
| `LibraryPaging.FinishedChainLists` | internal/persistence/postgres/work_repository.go:271-538 | what a finished chain lists, of the works themselves: "owned" exactly the found works with an entry, "wanted" exactly those with a membership and no entry, "all" or none exactly those with either; each once, told truly, by title or newest first |
| `RateLimiter.IPRateLimiter.Allow` | internal/auth/ratelimit.go:33-50 | a new key starts with a full bucket; a call is answered from its bucket and marks the key as seen |
| `RateLimiter.IPRateLimiter.Cleanup` | internal/auth/ratelimit.go:52-61 | the loop deletes exactly the keys idle for longer than the time to live, and leaves the others as they were |
| `RateLimiter.CallLevel` | internal/auth/ratelimit.go:33-50 | a call is allowed exactly when its key has a token, takes one if so, and touches no other key |
| `RateLimiter.BurstAllowed` | internal/auth/ratelimit.go:33-50 | n calls at one instant with n tokens are all allowed and take n tokens |
| `RateLimiter.UncoveredIsVisible` | internal/auth/ratelimit.go:52-61 | two bursts around an eviction that tell the limiters apart when the time to live is too short |
| `RateLimiter.EvictionInvisibleExactly` | internal/auth/ratelimit.go:33-61 | the limiter that evicts answers every run as one that never does, if and only if ttl * rate >= burst |
| `RateLimiter.WindowBound` | internal/auth/ratelimit.go:33-50 | any window of length T of any run admits at most burst + rate * T calls per key |
| `RateLimiter.RefillIsLinear` | internal/auth/ratelimit.go:33-50 | tokens flow in at the configured rate |
| `RateLimiter.ConfiguredLimitersHideEviction` | cmd/server/run.go:602-606 | the limiters of the server meet the condition, so their evictions never show |

## Left out

- HTTP handlers, middleware, routing, startup and shutdown, the desktop shell and the web client: I/O and user interface. The steps taken from handlers are those of pairing revocation and grant spending.
- PostgreSQL itself: each statement or transaction is one atomic step; connection errors, deadlines and serialization failures are not modelled. Row locks only remove interleavings that the step relations allow.
- The trigger that stamps `sync_sequence` is not part of this model: a sequence number is drawn at some point, used by one write, and never reused, and may be drawn before the writing transaction has its xid.
- xid wraparound: the source limits itself to the first xid epoch, and xids are unbounded here.
- Deletion of bookmarks and highlights, `GetSyncSequenceCeiling` and the cursor bump in the push handler: not part of the delta feed.
- The primary-key error when the same reference is saved twice, and other failures of a catalogue save.
- Goroutines, pausing, backoff and lease-lost flags of the job engine: a worker is the snapshot it holds, and may take any enabled step at any time. The attempt budget of a kind is assumed equal to the row's `max_attempts`.
- `Cache.Close`, which ends the cache model, and the contents of archives.
- CacheStore.ArchiveCache.Acquire: a caller that finds a load in flight stops at the wait; its second attempt, once the load is over, is a further call, with nothing said about how often it waits.
- The unique violation when two first reports for one work race: the second transaction fails and is retried by its caller.
- Cryptography, constant-time comparison, code normalisation, base64 and time formatting: ideal. `LibraryCursor.TimeText` states what is assumed of the text form of times.
- Label and class columns of a device: only the length of the label decides anything.
- `PairedDeviceRepository.Save`, an unconditional overwrite outside the guarded updates, password-enrolled devices, `UpdateLastSeen`, and the cascade when a user is deleted.
- PairingStore.PairingDb.Initiate: requires a session id that was never issued; the upsert would overwrite the row of a reused one, and ids are generated fresh.
- JobStore.Store.Enqueue: requires the budget to be the one registered for the kind, and an id that is in the table or was never used; `EnqueueKind` is the caller that provides both.
- MergeForest.CollectMergeGroup: requires a work that is on no merge cycle, since on one the search would not end; no work of a sound catalogue is on one, and all service calls keep the catalogue sound.
- The sweep of spent MFA tickets: a copy of the sweep of spent grants.
- Full-text search: a set of matching ids. The library id that scopes the query is fixed, and authors and collections of a summary are not modelled. Text order is any strict total order.
- LibraryPaging.PagesListThePool: requires ids, and titles when sorting by title, without NUL, which validation and the text columns guarantee.
- RateLimiter.WindowBound: is stated under the same condition as invisible eviction; without it an evicted key can draw a second burst.
- `golang.org/x/time/rate`: an explicit token bucket over the reals; the two clock readings inside one `Allow` are taken as one instant.
- Author merge, cover cache, config parsing, sanitisers and extractors: smaller copies of what is here, or work of libraries.
