# Verified models of Jingle's extension cache, shared text algorithms and configuration revisions

This project models the parts of Jingle that are easiest to get subtly wrong, and proves what the rest of the
program relies on:

* **The extension-runtime cache.** A directory shared by several processes: one file per namespace holding up to
  eight stores, writer leases and retention records beside them, a quota over the whole directory, recovery of
  corrupt files, a change feed with re-entrant listeners, a serialized write queue, and the lifecycle that turns all
  of this into "flushed" or "failed".
* **Text and content in `src/shared`.** The message-content normaliser, the projection of Markdown into spans, the
  fingerprint of a projection, content card ids and composer references.
* **Configuration revisions of native extensions.** Commits of preferences and secrets, and the revision tokens that
  stand for what is visible.

Verify everything with `dafny verify dfyconfig.toml`.

## How the cache is modelled

`CacheDirectories.CacheDirectory` is the directory: its store artifacts (active files, quarantined files,
temporaries), its writer leases and its retention records. Each operation holds the directory lock throughout, so it
is one method. Every atomic step of the file system (an unlink, one chunk of a copy, a rename) is recorded in the
ghost set `points`: these are the states a crash can leave and an unlocked reader can see. The contract of each
operation bounds all its points, not only its end. `CacheRuns` then takes runs of such operations by any number of
sessions, each cut off at any of its points, with damage from outside as one more event, and proves the whole-run
theorems by induction over the contracts alone.

The feed, the write queue and the lifecycle are machines whose events are what callers, callbacks and promise
continuations can do next; a notification loop is cut at every listener call, so that a listener may do anything,
and a call of `flush` or `stop` at every await, so that anything may happen while it waits.
The classes beside them have the source's own variables, and each method is proved equal to one step.

Loops over text and values are methods with loops, proved equal to a recursive specification about which the
properties are then proved. What such a specification computes is said once more without it, as a relation between
an input and its result: `MessageForms` for every form of content, `PreferenceLaws` for every commit, `CacheFiles` for
every stored value, `PercentLaws` for every encoded text; `KnownAnswers` adds published examples. Strings and numbers are concrete,
except for what "Left out" lists.

## What the proofs turned up

* **Evidence before destruction has an exception.** A quota pass made for one namespace may evict a corrupt file of
  another, unretained namespace, and then no `.corrupt` copy is left (`CacheRuns.EvictionLeavesNoEvidence`).
  `CacheRuns.EvidenceBeforeDestruction` states the guarantee with exactly that exception, and
  `CacheRuns.PassDestroysCorruptFileIff` says when a pass makes use of it, in terms of what it finds.
* **A recovery may drop valid stores.** It applies retention before it writes, so a corrupt file with nine valid stores
  loses one (`CacheRuns.NineValidStoresLoseOne`); all are kept exactly if they fit
  (`CacheRuns.RecoveryKeepsAllIffTheyFit`), and retained ones always are (`CacheRuns.RecoveryKeepsRetained`).
* **The eviction loop relies on its callers.** It never runs out because every caller protects the active and the
  corrupt path of a digest together; protecting one of them alone can make it fail
  (`DirectoryQuota.UnpairedProtectionCanRunOut`).
* **A store that was not admitted can be refused.** The count loop fails exactly when eight other retained stores fill
  the file (`StoreRetention.UnretainedStoreMayLackRoom`); admission is what rules this out.
* **A failure listener can be told twice.** The report iterates over a live set, so a listener registered from inside
  a failure report is told at once and again by the loop (`WriteQueue.LateListenerIsToldTwice`); every other listener
  is told exactly once (`WriteQueue.ToldExactly`).
* **An empty session id never hears of a failure.** The lifecycle tests the session id for truth, so `""` counts as
  not bound.
* **The connection revision can rise for nothing.** When a public application preference is set to a value that names
  no application, `null` is compared and stored but the default is read back
  (`PreferenceRuns.RejectedValueRaisesForNothing`); apart from that the revision rises exactly when the public
  configuration changes (`PreferenceRuns.ConnectionRevisionTracksPublicConfig`).
* **The mutation sequence is not globally monotone.** A step takes it back exactly if it removes the file, emptied or
  evicted (`CacheRuns.SequenceFallsIff`); while the file is there it only rises, over recoveries as well
  (`CacheRuns.SequenceRisesWhilePresent`).
* **A snapshot can be stale at admission.** A revision that another refresh applies between the refresh of an admission
  and its resumption is neither in the snapshot nor seen later (`ChangeFeed.OvertakenRevisionIsMissed`); nothing else
  is ever missed (`ChangeFeed.NothingMissedIffNotOvertaken`). The feed itself does not rule this out; whether the
  event loop and the directory lock do is not part of this model.

## Model

| member | source | states |
|---|---|---|
| CacheEntries.ApplyMutation | src/extension-runtime/cache-backend.ts:1029-1046 | the delete and set calls on the entry map, in order, yield exactly `Applied`, the entries in insertion order |
| CacheEntries.MutationMeaning | src/extension-runtime/cache-backend.ts:1029-1046 | an update removes the deleted and upserted keys and appends the last value of each upserted key in order of last upsert; other entries keep their order |
| CacheEntries.AppliedUnique | src/extension-runtime/cache-backend.ts:1029-1046 | if keys were unique they still are after any mutation |
| CacheEntries.StoreRefinesMap | src/extension-runtime/cache-backend.ts:1029-1046 | one mutation of entries with unique keys, read as a map, is that mutation of a plain map |
| CacheEntries.FoldedRefinesMap | src/extension-runtime/cache-backend.ts:1029-1046 | after any list of mutations the keys are unique, and the entries read as a plain map that underwent the same list |
| Ordering.LessMeans | src/extension-runtime/cache-backend.ts:2568-2570 | keys are compared at the first place where they differ, a shorter one that is a prefix coming first |
| CacheFiles.ParseCacheFile | src/extension-runtime/cache-backend.ts:2448-2521 | the loop over the parsed JSON returns the valid stores, and reports corruption exactly where the specification does |
| CacheFiles.CollectStores | src/extension-runtime/cache-backend.ts:2474-2506 | collecting store by store keeps exactly the individually valid ones and notes whether any was not |
| CacheFiles.WriteReadRoundTrip | src/extension-runtime/cache-backend.ts:2448-2525 | every file that satisfies the file invariant parses back from what is written for it, clean |
| CacheFiles.ParsedFileInvariant | src/extension-runtime/cache-backend.ts:2448-2521 | whatever JSON was read, the result has unique keys and no store sequence above that of the file |
| CacheFiles.ParsingKeepsValidStores | src/extension-runtime/cache-backend.ts:2474-2521 | of a document with the header of a cache file exactly the values that stand for a store by themselves are kept, corruption is reported exactly if one does not, and what is kept reads back clean when written; retention comes after |
| CacheFiles.DecodedIffStandsFor | src/extension-runtime/cache-backend.ts:2474-2506 | a value stands for a store exactly if its entries are an array of pairs of strings with no key twice and its sequence is a number not above that of the file; a legacy value is such an array itself, with sequence 0 |
| CacheFiles.OtherDocumentsAreCorrupt | src/extension-runtime/cache-backend.ts:2448-2472 | a document without that header is corrupt and keeps nothing |
| CacheFiles.JsonCodecIsLawful | src/extension-runtime/cache-backend.ts:2448-2525 | if the text of every valid cache file parses to what it was printed from, serializing and parsing files satisfies the law every later theorem assumes of them |
| StoreRetention.RetainCacheFile | src/extension-runtime/cache-backend.ts:2527-2566 | the two eviction loops drop the shortest prefix of unprotected stores, oldest first, that satisfies both limits, or fail for the right reason |
| StoreRetention.RetentionUnique | src/extension-runtime/cache-backend.ts:2527-2566 | that description determines the result |
| StoreRetention.RetentionFailsIffNothingFits | src/extension-runtime/cache-backend.ts:2533-2566 | retention fails exactly when no number of evictions would make the file fit |
| StoreRetention.RetentionKeepsPinned | src/extension-runtime/cache-backend.ts:2527-2566 | no pinned store is dropped, what is kept is unchanged, and the result satisfies both limits |
| StoreRetention.RetentionDropsOldestFirst | src/extension-runtime/cache-backend.ts:2533-2543 | of a file that is kept, every dropped store was last mutated no later than any unpinned store that stays, and if at the same time, its key comes first at the first place where the keys differ |
| StoreRetention.FittingFileUntouched | src/extension-runtime/cache-backend.ts:2527-2566 | a file that fits is returned as it is, whatever is pinned |
| StoreRetention.RetentionIdempotent | src/extension-runtime/cache-backend.ts:2527-2566 | retaining a second time, even with other pins, changes nothing |
| StoreRetention.RetainedStoreAlwaysHasRoom | src/extension-runtime/cache-backend.ts:2533-2553 | with at most eight retained stores, an update of a retained one, or a recovery, never fails in the count loop |
| StoreRetention.UnretainedStoreMayLackRoom | src/extension-runtime/cache-backend.ts:2533-2553 | for any store the count loop fails exactly when eight other retained stores are present and this one is not retained |
| DirectoryQuota.ConvergenceKeepsProtected | src/extension-runtime/cache-backend.ts:1766-1802 | a quota pass removes no protected artifact, changes no file it keeps, and removes files only by whole digest groups |
| DirectoryQuota.OnlyProtectedRemains | src/extension-runtime/cache-backend.ts:1948-1962 | with paths protected in pairs, evicting every candidate leaves exactly the protected artifacts |
| DirectoryQuota.EvictionNeverRunsOut | src/extension-runtime/cache-backend.ts:1784-1798 | with paths protected in pairs and the protected budget checked, the loop never fails for want of candidates |
| DirectoryQuota.ConvergesIffProtectedFit | src/extension-runtime/cache-backend.ts:1766-1802 | so with paths protected in pairs a pass succeeds exactly if the protected artifacts, with the reservation, fit |
| DirectoryQuota.UnpairedProtectionCanRunOut | src/extension-runtime/cache-backend.ts:1784-1798 | a concrete directory on which protecting one path of a digest makes the loop run out |
| DirectoryQuota.ConvergesIffSomePrefixFits | src/extension-runtime/cache-backend.ts:1784-1802 | a pass succeeds exactly when the protected artifacts fit and some number of evictions makes everything fit |
| DirectoryQuota.ConvergenceUnique | src/extension-runtime/cache-backend.ts:1766-1802 | the result of a pass is determined by what it found: the shortest sufficient prefix of evictions |
| DirectoryQuota.EvictedExactlyIf | src/extension-runtime/cache-backend.ts:1784-1798 | the digest at a place in the eviction order loses its files if, and only if, the protected files fit and what the evictions before it leave does not |
| DirectoryQuota.EvictedIff | src/extension-runtime/cache-backend.ts:1773-1798 | a pass takes a store file if, and only if, its digest is open to eviction and its turn comes before everything fits |
| DirectoryQuota.EvictsInByteOrder | src/extension-runtime/cache-backend.ts:1784-1798 | if a pass takes a store file, it takes every file open to eviction whose digest comes first in byte order |
| DirectoryQuota.NothingToConverge | src/extension-runtime/cache-backend.ts:1766-1802 | a pass over files within the quota evicts nothing and succeeds |
| DirectoryQuota.ReservedWriteFits | src/extension-runtime/cache-backend.ts:1734-1748 | writing one file into room reserved for it stays within the quota, its temporary counted |
| ControlRecords.MeasureControlDirectory | src/extension-runtime/cache-backend.ts:1489-1568 | the loop over the listing, with its check after each file, returns the totals or fails exactly when they exceed a limit |
| ControlRecords.CountsBoundBytes | src/extension-runtime/cache-backend.ts:1546-1568 | since each record is capped, the byte totals are bounded by the counts |
| ControlRecords.BudgetIsACount | src/extension-runtime/cache-backend.ts:1589-1616 | with at most one temporary, the directory is within every budget exactly when neither kind has more than 64 records |
| ControlRecords.ReservationIsACount | src/extension-runtime/cache-backend.ts:1570-1587 | a reservation is refused exactly for a 65th record of its kind; the physical limits never refuse one by themselves |
| ControlListings.ListingCounts | src/extension-runtime/cache-backend.ts:1489-1568 | any listing of the directory counts exactly its leases and its records |
| ControlListings.BudgetIsControlFits | src/extension-runtime/cache-backend.ts:1589-1616 | on any listing of a directory with at most one temporary, the budget check is the check of the two counts |
| ControlListings.LeaseReservationIsACount | src/extension-runtime/cache-backend.ts:1570-1587 | the reservation for a lease is refused exactly when the session has none and 64 exist |
| ControlListings.RecordReservationIsACount | src/extension-runtime/cache-backend.ts:1570-1587 | the reservation for a retention record is refused exactly when it is new and 64 exist |
| CacheDirectories.CacheDirectory.Measure | src/extension-runtime/cache-backend.ts:1964-1976 | the loop sums the sizes of all artifacts |
| CacheDirectories.CacheDirectory.Reserve | src/extension-runtime/cache-backend.ts:826-834 | room is reserved exactly if the bytes and one more file fit beside what is protected on the starting disk; nothing protected goes |
| CacheDirectories.CacheDirectory.EvictGroups | src/extension-runtime/cache-backend.ts:1784-1798 | the loop evicts groups in order until the quota holds, and stops at the first number that suffices; every point in between lies between start and end |
| CacheDirectories.CacheDirectory.Converge | src/extension-runtime/cache-backend.ts:1766-1802 | a whole quota pass leaves exactly what `IsConvergence` says, or refuses when the control records exceed their budget |
| CacheDirectories.CacheDirectory.WriteThrough | src/extension-runtime/cache-backend.ts:2179-2217 | a chunked copy through a temporary and a rename: at every point the destination is wholly old or wholly new |
| CacheDirectories.CacheDirectory.ReservedWrite | src/extension-runtime/cache-backend.ts:1734-1748 | a file is written exactly if its size and one more file fit beside what is protected on the starting disk; the quota holds at every point and nothing protected is evicted |
| CacheDirectories.CacheDirectory.PreserveEvidence | src/extension-runtime/cache-backend.ts:2134-2177 | preserving evidence succeeds exactly if none has to be written or its size fits beside what is protected; the evidence is then a corrupt file's first 16 MiB, or the older evidence cut to that size, and the active file is untouched at every point |
| CacheDirectories.CacheDirectory.FinalPass | src/extension-runtime/cache-backend.ts:840-842 | the last quota pass of an update or a recovery never evicts and never fails |
| CacheDirectories.CacheDirectory.ReplaceFile | src/extension-runtime/cache-backend.ts:801-842 | a file is replaced exactly if each reservation on the way fits beside what is protected, one for the evidence where it is needed and one for the new content; at every point the file is old or new, and once it is new the evidence is in place |
| CacheDirectories.CacheDirectory.PlanUpdate | src/extension-runtime/cache-backend.ts:772-800 | what an update writes is the mutated file after retention; each refusal is given exactly for what it says: the sequence is exhausted, or retention finds no room for the stores, or for the bytes |
| CacheDirectories.CacheDirectory.Update | src/extension-runtime/cache-backend.ts:736-854 | an update is done if, and only if, the lease is active, the control records and the protected files fit, the sequence is not exhausted, retention keeps a file, and each reservation fits, all said of the starting disk; it then writes exactly the planned file, and otherwise the file is as before; all its points are update points |
| CacheDirectories.CacheDirectory.ReadWithRecovery | src/extension-runtime/cache-backend.ts:931-995 | a clean file is returned and nothing changes; a corrupt one is replaced by its valid stores with evidence kept if, and only if, the lease is active, the control records and the protected files fit, retention keeps a file, and each reservation fits |
| CacheDirectories.CacheDirectory.Activate | src/extension-runtime/cache-backend.ts:224-253 | an activation replaces the lease of its session and nothing else, and succeeds exactly if the session had one or fewer than 64 exist |
| CacheDirectories.CacheDirectory.Revoke | src/extension-runtime/cache-backend.ts:255-280 | revoking removes exactly this lease; with an old token nothing changes |
| CacheDirectories.CacheDirectory.Release | src/extension-runtime/cache-backend.ts:282-315 | releasing removes this lease and this holder's record, and leaves every other session alone |
| CacheDirectories.CacheDirectory.Reset | src/extension-runtime/cache-backend.ts:203-222 | a reset removes every control record and no store artifact |
| CacheDirectories.CacheDirectory.CheckStoreBudget | src/extension-runtime/cache-backend.ts:1452-1462 | the loop over addresses accepts exactly those with at most eight distinct stores per namespace |
| CacheDirectories.CacheDirectory.Admit | src/extension-runtime/cache-backend.ts:856-929 | an admission succeeds exactly under the active lease, within every limit, and if what must be protected leaves room; the address is then in the record of this holder and nothing else in the records changes; otherwise the records stay; nothing protected is evicted |
| CacheDirectories.CacheDirectory.CheckAdmission | src/extension-runtime/cache-backend.ts:879-898 | the checks before the quota pass pass exactly if the record is this holder's, stays within 256 addresses, the control records fit, and no namespace gets a ninth store |
| CacheDirectories.CacheDirectory.PassForAdmission | src/extension-runtime/cache-backend.ts:907-913 | the quota pass of an admission fails exactly if the files it has to spare exceed the quota by themselves: it never runs out of candidates |
| CacheRuns.SpaceBound | src/extension-runtime/cache-backend.ts:765-842 | once the quota holds it holds at every later point of every run, at most 32 files and 256 MiB, temporaries counted, crashes included |
| CacheRuns.ControlBound | src/extension-runtime/cache-backend.ts:1570-1616 | in every run there are at most 64 leases, 64 records and one temporary, each within its size, and at most eight retained stores per namespace |
| CacheRuns.PhysicalControlBound | src/extension-runtime/cache-backend.ts:168-179 | in every run, whatever a scan of the control records lists is within every limit on files and on bytes, the physical ones included |
| CacheRuns.AdmissionImpliesRoom | src/extension-runtime/cache-backend.ts:877-898 | in every run an update of an admitted store is never refused for want of stores |
| CacheRuns.NamespaceStep | src/extension-runtime/cache-backend.ts:736-995 | any step, cut anywhere, leaves a namespace file as it was, replaces it by what an update or recovery of it writes under an active lease, or evicts it unretained |
| CacheRuns.EvidenceBeforeDestruction | src/extension-runtime/cache-backend.ts:801-838 | wherever a step is cut, a corrupt file that is gone or replaced has its first 16 MiB in the evidence file, unless a quota pass evicted it, unretained, for another namespace |
| CacheRuns.PassDestroysCorruptFileIff | src/extension-runtime/cache-backend.ts:1773-1798 | the exact condition of that exception: a pass leaves neither a corrupt file nor evidence of it if its digest is open to eviction and its turn comes before everything fits; otherwise both are as they were |
| CacheRuns.EvictionLeavesNoEvidence | src/extension-runtime/cache-backend.ts:765-766 | that exception occurs: a step of an update under an active lease evicts another namespace's corrupt file, and nothing of it is left |
| CacheRuns.NextFileValid | src/extension-runtime/cache-backend.ts:776-800 | what an update writes satisfies the file invariant and the limits, and reads back as itself |
| CacheRuns.UpdateStampsItsStore | src/extension-runtime/cache-backend.ts:779-790 | an update raises the mutation sequence by one and stamps its own store with it, which is then newer than every other |
| CacheRuns.FirstUpdateSucceeds | src/extension-runtime/cache-backend.ts:765-842 | for instance in an empty directory an update under an active lease whose content fits into a file meets the condition of success |
| CacheRuns.RecoveredFileValid | src/extension-runtime/cache-backend.ts:960-987 | so does what a recovery writes |
| CacheRuns.RecoveryKeepsAllIffTheyFit | src/extension-runtime/cache-backend.ts:960-967 | a recovery writes back all valid stores if, and only if, they fit into one file as they are |
| CacheRuns.RecoveryKeepsRetained | src/extension-runtime/cache-backend.ts:960-967 | retained valid stores always survive a recovery, and nothing is altered or invented |
| CacheRuns.NineValidStoresLoseOne | src/extension-runtime/cache-backend.ts:960-967 | a corrupt file with nine valid stores loses one that is not retained and was mutated no later than any other such, by key if at the same time, and only that one if the rest is small enough |
| CacheRuns.RunKeepsWellWritten | src/extension-runtime/cache-backend.ts:736-995 | in every run without damage to it, a namespace file reads clean and within its limits at every point |
| CacheRuns.RecoveryRepairs | src/extension-runtime/cache-backend.ts:960-987 | after a completed recovery the file reads clean, as what was recovered |
| CacheRuns.UnlockedReadAgrees | src/extension-runtime/cache-backend.ts:2440-2446 | the read without the lock, which applies retention to a file that is there, returns what a locked read returns, at every point of every run, with or without a file |
| CacheRuns.SequenceFallsIff | src/extension-runtime/cache-backend.ts:827-829 | a step without damage takes the mutation sequence of a namespace back if, and only if, it leaves no file where there was a positive sequence |
| CacheRuns.SequenceRisesWhilePresent | src/extension-runtime/cache-backend.ts:779-782 | over a run the mutation sequence only rises as long as the file is there |
| CacheRuns.EffectNeedsActiveLease | src/extension-runtime/cache-backend.ts:754-757 | a step that changes anything under a lease started with that lease active |
| CacheRuns.OnlyActivationActivates | src/extension-runtime/cache-backend.ts:224-253 | an inactive lease becomes active only by its own activation |
| CacheRuns.ActiveLeaseEndsOnlyByName | src/extension-runtime/cache-backend.ts:255-315 | an active lease ends only by its own revocation or release, a newer activation of its session, or a reset |
| CacheRuns.NewerActivationFences | src/extension-runtime/cache-backend.ts:1306-1312 | a newer token of a session takes the place of the older one at once |
| CacheRuns.FencedForever | src/extension-runtime/cache-backend.ts:754-757 | in every run, once a token is inactive nothing under it takes effect until it is activated again |
| CacheRuns.StepKeepsRetained | src/extension-runtime/cache-backend.ts:772-798 | whatever state its file is in, corrupt or oversized included, a step leaves a retained store exactly as it was, unless it commits a mutation addressed to it under an active lease, and then applies exactly that; the store is gone only after a clear |
| CacheRuns.HoldPersists | src/extension-runtime/cache-backend.ts:282-315 | in every run a record keeps an address until its own release or a reset |
| CacheRuns.RetentionOverRuns | src/extension-runtime/cache-backend.ts:856-929 | from an admission on, until the record of its holder is released or all are reset, the store is exactly what it was with its own mutations that took effect applied in order; it is absent only if it was and none did, or if the last was a clear |
| CacheRuns.RetainedStoreOverRuns | src/extension-runtime/cache-backend.ts:1441-1450 | the same for as long as the record of any session holds the address, the holders changing or not |
| CacheRuns.StepRefines | src/extension-runtime/cache-backend.ts:776-798 | a committed update folds its mutation into its own store only |
| CacheRuns.RunRefinesPlainMaps | src/extension-runtime/cache-backend.ts:776-798 | after any run every store present holds exactly the fold of its own mutations since it was last created, cleared or evicted |
| CacheRuns.RunReadsAsPlainMaps | src/extension-runtime/cache-backend.ts:776-798 | so after any run every store present has unique keys and reads as a plain map that underwent those mutations |
| ChangeFeed.FeedIsConsecutive | src/extension-runtime/cache-backend.ts:671-709 | under any re-entrant use a registration sees consecutive revisions from its admission on, none before, and none is lost while it stays |
| ChangeFeed.NotificationEnds | src/extension-runtime/cache-backend.ts:691-709 | a notification that its listeners do not add to ends after one turn for each listener and batch, and then every admitted, active registration has seen every revision since its admission |
| ChangeFeed.SeenIncreases | src/extension-runtime/cache-backend.ts:671-709 | what a registration sees is strictly increasing and newer than the snapshot its admission returned |
| ChangeFeed.NothingMissedIffNotOvertaken | src/extension-runtime/cache-backend.ts:625-635 | between the snapshot and what is seen no revision is missing if, and only if, the snapshot was the newest at admission |
| ChangeFeed.OvertakenRevisionIsMissed | src/extension-runtime/cache-backend.ts:625-635 | a concrete run in which a refresh between snapshot and admission leaves one revision neither in the snapshot nor seen |
| ChangeFeed.UnsubscribedForever | src/extension-runtime/cache-backend.ts:592-601 | nothing reaches a registration after it unsubscribed |
| ChangeFeed.AdmissionInsideNotificationWouldReplay | src/extension-runtime/cache-backend.ts:602-645 | why admission has to happen outside a notification: inside one, a revision would be seen again |
| ChangeFeed.StoreSubscription.ApplySnapshot | src/extension-runtime/cache-backend.ts:671-690 | an old revision is ignored, an exhausted one is an error that changes nothing, and the next one queues one batch for the listeners of that moment; a nested call only queues |
| ChangeFeed.StoreSubscription.RefreshForAdmission | src/extension-runtime/cache-backend.ts:407-416 | the refresh of an admission applies the next revision and returns that very snapshot, or fails once revisions are exhausted |
| ChangeFeed.StoreSubscription.NotifyNext | src/extension-runtime/cache-backend.ts:691-709 | one turn of the loop that shifts the queue in place, calling only active, admitted, subscribed listeners |
| ChangeFeed.SubscribingKeepsTable | src/extension-runtime/cache-backend.ts:553-591 | every tracked store has a listener, with at most 32 files and eight stores per file |
| ChangeFeed.SubscribingAddsOnlyItself | src/extension-runtime/cache-backend.ts:553-591 | subscribing adds one registration to one store and changes no other listener anywhere |
| ChangeFeed.SubscriptionTable.Subscribe | src/extension-runtime/cache-backend.ts:553-591 | a subscription is accepted exactly if its file is tracked or fewer than 32 are, and its store is or fewer than eight of the file are |
| ChangeFeed.UnsubscribingKeepsTable | src/extension-runtime/cache-backend.ts:720-734 | dropping empty stores and files keeps that |
| ChangeFeed.UnsubscribingTakesOnlyItself | src/extension-runtime/cache-backend.ts:592-601 | unsubscribing takes away one registration and no other listener anywhere |
| ChangeFeed.UnsubscribingAgain | src/extension-runtime/cache-backend.ts:592-601 | unsubscribing again changes nothing, whoever subscribed in the meantime |
| WriteQueue.CommittedIsPrefix | src/extension-runtime/cache-backend.ts:510-541 | in every run the committed mutations are a prefix of the accepted ones, in call order |
| WriteQueue.NothingCommitsAfterFailure | src/extension-runtime/cache-backend.ts:522-541 | once a failure is recorded nothing commits any more, except a write that was already running |
| WriteQueue.CleanDrainMeansCommitted | src/extension-runtime/cache-backend.ts:510-541 | in every reachable state without a recorded failure, once all accepted writes have settled they are all committed |
| WriteQueue.ToldExactly | src/extension-runtime/cache-backend.ts:353-380 | no failure listener is told more than once, or twice if it registered during a report, and one that stays is told exactly that often |
| WriteQueue.LateListenerIsToldTwice | src/extension-runtime/cache-backend.ts:543-551 | a concrete run in which a listener registered during a report is told twice |
| WriteQueue.CacheBackend.MutateStore | src/extension-runtime/cache-backend.ts:510-541 | a mutation is queued exactly while writes are accepted and nothing failed; a late one is recorded as a close violation once |
| WriteQueue.CacheBackend.NotifyNextListener | src/extension-runtime/cache-backend.ts:353-361 | one turn of the loop over the live set of failure listeners |
| CacheLifecycle.StopAnswersFlushedIff | src/extension-runtime/cache-lifecycle.ts:62-94 | in every run `stop` answers `flushed` if, and only if, no failure and no write after closing was recorded by then |
| CacheLifecycle.FlushedMeansCommitted | src/extension-runtime/cache-lifecycle.ts:62-94 | once `stop` has answered `flushed` every accepted mutation is committed and none is accepted any more, then and at every later point of the run |
| CacheLifecycle.AnswersAreRight | src/extension-runtime/cache-lifecycle.ts:47-75 | a good answer to `flush` or `stop` means that all accepted before the call is committed; a bad one that a failure was recorded |
| CacheLifecycle.ResumeKeepsCall | src/extension-runtime/cache-backend.ts:341-351 | the drain loop, which goes round again if writes were added while it waited, ends well only with every accepted write committed |
| CacheLifecycle.DrainEnds | src/extension-runtime/cache-backend.ts:341-351 | a drain that waited for all that is accepted by then is answered, yes exactly if the wait did not throw and nothing is recorded; if more was accepted meanwhile it waits for that as well |
| CacheLifecycle.FailureReportedExactlyOnce | src/extension-runtime/cache-lifecycle.ts:22-89 | a bound session is told of a failure exactly once, also if the failure came before the binding |
| CacheLifecycle.OnlyTheWriterIsBound | src/extension-runtime/cache-lifecycle.ts:77-89 | in every run with a writer session, the bound session is none or the writer's |
| CacheLifecycle.BoundStaysBound | src/extension-runtime/cache-lifecycle.ts:77-89 | in every run a session that is bound, and not empty, stays bound |
| CacheLifecycle.WriterCanBindAndCall | src/extension-runtime/cache-lifecycle.ts:41-89 | after any run from the start the writer's session can be bound, and then a call of `flush` or `stop` begins exactly if it is for that session |
| CacheLifecycle.FirstComerIsBound | src/extension-runtime/cache-lifecycle.ts:41-89 | without a writer session the first session to come is bound, and its calls begin |
| CacheLifecycle.CacheLifecycleState.BindSession | src/extension-runtime/cache-lifecycle.ts:77-89 | a session is bound exactly if it is the writer's, or there is no writer, and no other session that is not empty is bound already; it is then the bound one and is told of an earlier failure once |
| CacheLifecycle.CacheLifecycleState.constructor | src/extension-runtime/cache-lifecycle.ts:13-39 | a backend comes with a writer session and the reverse; the lifecycle is its first failure listener |
| CacheLifecycle.CacheLifecycleState.BeginCall | src/extension-runtime/cache-lifecycle.ts:41-75 | a call for another session is refused; after a failure the answer is no at once; `stop` closes the backend before anything else |
| CacheLifecycle.CacheLifecycleState.TurnDrain | src/extension-runtime/cache-backend.ts:341-351 | one turn of the drain loop after its await: throw, go round again, or check for a recorded failure |
| CacheLifecycle.CacheLifecycleState.AnswerCall | src/extension-runtime/cache-lifecycle.ts:53-75 | the answer of `stop` is `flushed` exactly if nothing was recorded when it is given |
| MessageContents.ReadOptional | src/shared/message-content.ts:491-529 | the loop over alias names reads what the specification reads |
| MessageContents.ReadingMeans | src/shared/message-content.ts:491-529 | something is found exactly if a name is present and all names that are present agree on it |
| MessageContents.ReadIsTrimmed | src/shared/message-content.ts:491-511 | what is found is trimmed and not empty |
| MessageContents.NormalizeContentBlock | src/shared/message-content.ts:947-986 | the normaliser with its mutated ancestor set terminates on every object graph, equals its specification, and leaves the set as it was |
| MessageContents.NormalizeEntries | src/shared/message-content.ts:934-944 | flattening over an array's entries, in order |
| MessageContents.ToDisplayMessageContent | src/shared/message-content.ts:1048-1065 | strings stay, undefined becomes empty, arrays are normalised, all else is one malformed block |
| MessageContents.JingleHostIsLawful | src/shared/message-content.ts:961-985 | the words the normaliser compares with are distinct, trimmed and not empty |
| MessageForms.EntryBecomesItsBlock | src/shared/message-content.ts:800-914 | for texts, reasoning under each of its types, images by source and by address, files and notes: a record becomes exactly the block its fields stand for, field by field, and a note under its type if they stand for none |
| MessageForms.ToolResultShows | src/shared/message-content.ts:916-945 | in a message of a tool a result that is a text shows as that one text block, an empty one as nothing, an array as its entries; any other, or one for another call, is reported |
| MessageForms.OtherTypes | src/shared/message-content.ts:974-986 | calls of tools, hidden thinking and signatures leave nothing; an unknown type is reported by name |
| MessageForms.UntypedIsMalformed | src/shared/message-content.ts:947-959 | what is not a record, or names no type, is one malformed block |
| MessageForms.EntriesInOrder | src/shared/message-content.ts:1064-1064 | entries become blocks one after the other |
| MessageForms.ContentShows | src/shared/message-content.ts:1048-1065 | text is shown whole, nothing as the empty text, an array by its entries, anything else as one malformed block |
| MessageForms.CarriedIff | src/shared/message-content.ts:645-798 | a block has a source exactly if one name alone carries it and its kind, where it is given, agrees: an address, data or bytes, an id of a file under any of its names, a text, `content`, or a record around one |
| MessageForms.NestedIff | src/shared/message-content.ts:589-643 | a record has a source exactly if it names the kind and the fields of that kind say it; a type it does not name is inherited |
| MessageForms.ImageUrlIff | src/shared/message-content.ts:837-897 | an image is given by address exactly as a source that is one, as a string, or as a record around one, with a level of detail in at most one place |
| MessageForms.WordIffSpelled | src/shared/message-content.ts:961-985 | a string is read as a word exactly if it is how the word is spelled |
| MessageForms.ToolOutputIsShown | src/shared/message-content.ts:930-933 | for instance a tool message with one tool result of type `tool_result` and a text shows that text |
| CanonicalContents.AllAreCanonical | src/shared/message-content.ts:589-986 | whatever the values are, cycles included, every block made of them is in canonical form for its role |
| CanonicalContents.CanonicalStays | src/shared/message-content.ts:589-986 | a canonical block, however it is laid out in memory, is normalised to itself |
| CanonicalContents.NormaliserIsProjection | src/shared/message-content.ts:1048-1065 | normalising stored normalised content changes nothing, for the same role and tool call |
| CanonicalContents.NormalisedTwiceIsNormalisedOnce | src/shared/message-content.ts:1048-1065 | normalising its own output, laid out as fresh objects, changes nothing |
| CanonicalContents.PersistedUnchangedIffCanonical | src/shared/message-content.ts:387-410 | persisted content is returned unchanged if, and only if, it is canonical for its role |
| CanonicalContents.PersistedIsCanonical | src/shared/message-content.ts:379-410 | parsing only ever returns canonical content: what was persisted, or the note that it is invalid |
| CanonicalContents.AcyclicContentIsATree | src/shared/message-content.ts:916-986 | on values without cycles the ancestor guard never strikes, so the normaliser is plain recursion over a tree |
| CanonicalContents.CycleIsCut | src/shared/message-content.ts:938-943 | a tool result that contains itself is reported once as malformed and not repeated |
| Base64.EncodeBase64 | src/shared/message-content.ts:531-551 | the loop over groups of three bytes encodes as section 4 of RFC 4648 says |
| Base64.Base64RoundTrip | src/shared/message-content.ts:531-551 | decoding what was encoded gives the bytes back |
| KnownAnswers.Base64Examples | src/shared/message-content.ts:531-551 | the codes that section 10 of RFC 4648 gives for "f", "fo", "foo" and "foobar" |
| MarkdownSpans.ProjectMarkdownSpans | src/shared/assistant-content-part.ts:296-358 | the projection, loops and all, equals its specification for every test of fences and delimiters |
| MarkdownSpans.LineOffsets | src/shared/assistant-content-part.ts:272-278 | the loop finds where lines start |
| MarkdownSpans.OffsetsFindLines | src/shared/assistant-content-part.ts:272-278 | no start of a line is missing from the offsets |
| MarkdownSpans.LinesMakeText | src/shared/assistant-content-part.ts:272-282 | the lines have no line breaks and, joined by them, are the text |
| MarkdownSpans.FindSpan | src/shared/assistant-content-part.ts:305-343 | one turn of the scan finds the block that starts on a line, and where to go on |
| MarkdownSpans.BlocksAreBlocks | src/shared/assistant-content-part.ts:305-343 | every block is a fence up to the first line that closes it, or a table with all its rows, one after the other |
| MarkdownSpans.SpansShowBlocks | src/shared/assistant-content-part.ts:305-358 | every block is shown by a span on exactly its lines, a table as one and a fence by its language as diagram, diff or code with that language; every other span is narrative |
| MarkdownSpans.NothingMissed | src/shared/assistant-content-part.ts:305-343 | outside the blocks a fence never closes, and a table head only stands after such a fence |
| MarkdownSpans.ProjectionConservesText | src/shared/assistant-content-part.ts:296-358 | spans are in bounds, in order, disjoint, on line boundaries; every character with ink is in exactly one; narrative has ink |
| MarkdownSpans.StripFenceReadsBody | src/shared/assistant-content-part.ts:360-365 | of a fenced block exactly the lines between the fences remain, with the indent of the closing one |
| AssistantFingerprint.AssistantContentProjectionFingerprint | src/shared/assistant-content-part.ts:239-260 | the nested loops hash exactly the framed stream of all fields and print it |
| AssistantFingerprint.StreamTellsProjections | src/shared/assistant-content-part.ts:245-258 | different projections have different streams: the frames cannot run into each other |
| AssistantFingerprint.StepInjective | src/shared/assistant-content-part.ts:247-250 | one step of the hash is injective in the hash and in the character, modulo 2 to the 64 |
| AssistantFingerprint.OneCharacterShows | src/shared/assistant-content-part.ts:239-260 | changing exactly one character of one hashed field always changes the fingerprint |
| AssistantFingerprint.PrintedInjective | src/shared/assistant-content-part.ts:259-259 | sixteen padded hexadecimal digits always suffice and different hashes print differently |
| KnownAnswers.HashExample | src/shared/assistant-content-part.ts:239-260 | the published 64-bit FNV-1a hash of "a" |
| KnownAnswers.StreamExample | src/shared/assistant-content-part.ts:245-258 | the values that are hashed for one part, in their order, and a value framed by its length |
| PercentEncoding.Utf8RoundTrip | src/shared/composer-reference-uri.ts:32-44 | every character is read back from its UTF-8 octets, so escapes per section 2.1 of RFC 3986 lose nothing |
| PercentEncoding.ComponentRoundTrip | src/shared/content-card.ts:25-32 | decoding an encoded component gives it back |
| PercentEncoding.PayloadRoundTrip | src/shared/composer-reference-uri.ts:40-44 | so does decoding a payload, with its marks escaped as well |
| PercentEncoding.PayloadAlphabet | src/shared/composer-reference-uri.ts:40-44 | an encoded payload has no parenthesis, white space or slash, and is empty only for an empty name |
| PercentLaws.DecodesIff | src/shared/composer-reference-uri.ts:32-38 | a text decodes to exactly the characters it writes out one after the other, each as it is or by escapes of its octets with digits of either case, and is an error if it writes out none |
| PercentLaws.Utf8Iff | src/shared/composer-reference-uri.ts:32-38 | octets are read as a character only if they are its UTF-8: no overlong form and no surrogate |
| KnownAnswers.Utf8Examples | src/shared/composer-reference-uri.ts:32-44 | the octets that section 7 of RFC 3629 gives for characters of one to four octets |
| KnownAnswers.EscapeExamples | src/shared/composer-reference-uri.ts:40-44 | which characters are escaped, and how, in a component and in a payload |
| ContentCard.IdRoundTrip | src/shared/content-card.ts:25-49 | a printed id reads back exactly if neither the source id nor the slot is empty, and not at all otherwise |
| ContentCard.IdInjective | src/shared/content-card.ts:25-32 | different sources have different ids, empty fields included |
| ContentCard.ReadsIff | src/shared/content-card.ts:31-49 | any text is read as a source exactly if it has four fields between colons that say it: a known type and kind, and two that are not empty and decode |
| KnownAnswers.CardExample | src/shared/content-card.ts:25-32 | the id of one card as it is printed |
| ComposerReference.ParseComposerReferenceText | src/shared/composer-reference-uri.ts:112-165 | the loop over matches, keeping the end of the last reference, returns the tokens of the specification, or nothing without a reference |
| ComposerReference.ParsingLosesNothing | src/shared/composer-reference-uri.ts:112-165 | from any position of the scan, the stretches of text behind the tokens still to come are the rest of the input |
| ComposerReference.PiecesAreTheOnes | src/shared/composer-reference-uri.ts:112-165 | the pieces of a text are the one list that stands, in order, for all of it: texts as they are and without a reference, not adjacent, and mentions as what the pattern finds there |
| ComposerReference.ParsingIsLossless | src/shared/composer-reference-uri.ts:112-165 | so the tokens that are returned stand one by one for stretches that make up the whole input |
| ComposerReference.TokensRoundTrip | src/shared/composer-reference-uri.ts:112-165 | printed tokens parse back exactly if, and only if, the references are legal, a reference is among them, and the texts are not empty, not adjacent and show no reference where they stand |
| ComposerReference.PlainTokensRoundTrip | src/shared/composer-reference-uri.ts:112-165 | in particular tokens whose texts have no opening bracket do |
| ComposerReference.ReferenceRoundTrip | src/shared/composer-reference-uri.ts:29-110 | a printed reference parses back exactly if, and only if, its label is legal and its names are not empty |
| ComposerReference.NameReadsBack | src/shared/composer-reference-uri.ts:32-55 | an encoded name is a legal payload and decodes to the name |
| ComposerReference.MatchIffLink | src/shared/composer-reference-uri.ts:28-29 | the pattern matches exactly where a link stands whose label is an at sign and a name without closing bracket or line break, with one of the two schemes and a payload without closing parenthesis or white space |
| ComposerReference.ExtensionSourceIff | src/shared/composer-reference-uri.ts:29-73 | a link names a source of an extension exactly if the first two parts of its payload decode to the two names, neither empty |
| ComposerReference.WorkspaceFileIff | src/shared/composer-reference-uri.ts:80-94 | a link names a file exactly if its payload decodes to the path, which is not empty |
| KnownAnswers.LinkExamples | src/shared/composer-reference-uri.ts:40-54 | two links as they are printed |
| StoreKeys.ConnectionOwnerKeyInjective | src/main/preferences.ts:427-433 | two connections share an owner key only if they are the same |
| StoreKeys.CommandRevisionKeyInjective | src/main/preferences.ts:435-437 | two commands share a revision key only if they are the same |
| StoreKeys.CommandPreferenceKeyInjective | src/main/preferences.ts:416-425 | two commands share a preference key only if they are the same, colons in names included |
| StoreKeys.EscapedAllReadsBack | src/main/preferences.ts:421-436 | a string can be read back from its JSON text, whatever follows it |
| KnownAnswers.ListExample | src/main/preferences.ts:416-437 | a list of two strings as JSON writes it |
| KnownAnswers.PlainKeyExample | src/main/preferences.ts:416-425 | a command is named with a colon between extension and command |
| KnownAnswers.MarkedKeyExample | src/main/preferences.ts:416-425 | unless a name has a colon itself: then by a marked list of both |
| Preferences.PreferenceStore.SetPreferenceRecord | src/main/preferences.ts:1087-1157 | the commit stores exactly the new state of the specification, or fails and stores nothing |
| Preferences.PreferenceStore.SetCommandPreferenceRecord | src/main/preferences.ts:1159-1207 | the same for the preferences of a command |
| Preferences.PreferenceStore.SetConnectionSecretRecord | src/main/preferences.ts:667-764 | the same for secrets; equal secrets are not stored again |
| Preferences.StoreKeysAreInjective | src/main/preferences.ts:412-437 | the three key builders have the injectivity the run theorems need |
| PreferenceLaws.CommittedSecrets | src/main/preferences.ts:698-745 | after a commit of secrets a declared secret is what the commit says of it, a new value replacing an old one and an empty one taking it away; what it does not mention stays under a merge, and goes otherwise |
| PreferenceLaws.SecretsCommittedIff | src/main/preferences.ts:667-745 | such a commit is refused exactly if extension, connection or provider is not the one declared, there are no secrets, or it would change one with the revision exhausted |
| PreferenceLaws.VisibleSecretIff | src/main/preferences.ts:929-947 | a secret is visible exactly if its name is declared and not blank and its value not empty, and then as stored |
| PreferenceLaws.CommittedPreference | src/main/preferences.ts:593-611 | after a commit a declared preference shows what the commit says of it, or what it falls back to if that is nothing or null |
| PreferenceLaws.CommittedApplication | src/shared/native-extensions.ts:34-59 | an application shows as the name, bundle id and path with ink, trimmed, of what was given; what names none shows as the default |
| PreferenceLaws.CommittedCommandPreference | src/main/preferences.ts:909-927 | the same for a preference of a command, whatever its extension says |
| PreferenceLaws.CommandWins | src/main/preferences.ts:909-927 | a command shows its own preferences, and those of its extension that it does not declare itself |
| PreferenceLaws.SnapshotShows | src/main/preferences.ts:994-1028 | a snapshot shows the stored secrets and preferences, in the public configuration exactly the public ones, and preferences of a command exactly if one was asked for |
| PreferenceLaws.ExtensionCommittedIff | src/main/preferences.ts:1087-1157 | a commit of preferences is refused exactly for an unknown extension, or if it would raise an exhausted revision |
| PreferenceLaws.CommandCommittedIff | src/main/preferences.ts:1159-1207 | a commit to a command is refused exactly for an unknown extension or command, a name without a key, or likewise |
| PreferenceLaws.ReportsWhatRose | src/main/preferences.ts:1030-1207 | a commit reports as changed exactly the revisions it raised, each by one |
| PreferenceRuns.EqualTokensMeanEqualConfiguration | src/main/preferences.ts:961-1028 | two states of any run with equal tokens show equal secrets, preferences and public configuration |
| PreferenceRuns.UnrelatedConfigurationStays | src/main/preferences.ts:1087-1207 | a commit for another extension, or another command, changes neither a token nor anything visible under it |
| PreferenceRuns.CommitRaisesToken | src/main/preferences.ts:1087-1207 | a commit that changes the state raises a revision in the token it concerns |
| PreferenceRuns.TokensRiseOverRuns | src/main/preferences.ts:961-992 | over a run tokens only rise, and stay equal only if every stored part does |
| PreferenceRuns.ConnectionRevisionTracksPublicConfig | src/main/preferences.ts:1100-1118 | the connection revision rises exactly when the public configuration changes or a public value is rejected |
| PreferenceRuns.RejectedValueRaisesForNothing | src/main/preferences.ts:1095-1149 | a concrete commit that succeeds, raises the connection revision from 0 to 1 and reports a changed connection, while the public configuration is what it was |
| PreferenceRuns.RunsStaySettled | src/main/preferences.ts:1087-1207 | every state reached by commits stores values in normal form |
| PreferenceRuns.ReadsBack | src/main/preferences.ts:593-611 | what was resolved and stored reads back as itself, or as the default where it was rejected |
| PreferenceRuns.CredentialRevisionTracksSecrets | src/main/preferences.ts:698-745 | the credential revision rises exactly when the visible secrets change or a secret has a blank name |

## Left out

- The file system itself: I/O errors count as a crash at that step; `fsync`, file modes, symbolic links and the checks for regular files are not part of this model.
- The directory lock: it is exclusive and held throughout; `proper-lockfile`, stale locks, per-file locks, lock compromise and its best-effort checks are not part of this model.
- Asynchronous and synchronous twins are modelled once; promises, timers and the refresh loop with its directory watcher are steps that may happen.
- SHA-256 is taken as injective, so digests are names; process ids and UUIDs are fresh temporary names.
- JSON text of cache files is behind a codec with a round-trip law; the JSON value level is concrete.
- The principal and scope checks of a writer lease are part of the lease value, compared as a whole.
- The serialized sizes of control records are parameters; a temporary of a control record is counted, and holds at most what its record may.
- ChangeFeed.FeedIsConsecutive: admission resumes from an await and so never runs inside a notification; whether another refresh can come between the one of an admission and its resumption depends on event-loop timing and the directory lock, and the model allows it.
- WriteQueue.ToldExactly: a failure listener registers once; the same function added a second time, which the source's Set ignores, or again after it was removed, is not part of this model.
- Directory sizes beyond the safe integers, where the source throws, are sums like any other here.
- Regular expressions of Markdown lines are parameters of the projection, so its theorems hold for any of them; the pattern of composer references is concrete.
- Lone surrogates: characters are Unicode scalar values, except in the fingerprint, which works on UTF-16 code units; `encodeURIComponent` throws on lone surrogates.
- The safe readers of message content are a classification of objects into plain records, dense arrays and others; property enumeration and prototypes are not modelled, nor which URLs parse.
- Extracting reasoning text from message metadata, composer metadata, merging of references, and content for the agent client.
- The payloads of projected parts: table rows, diff lines and their schemas.
- normalizeJsonFact throws on values that are not JSON before anything is stored; preference values here are JSON already. Migration of older stored state is not modelled.
- Names such as `__proto__` that read inherited properties of a JavaScript object.
- The rest of `preferences.ts`, manifests, Electron wiring and the user interface, which would add easy members only.
