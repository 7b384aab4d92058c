# A verified model of the content node's state

This project models the parts of the Audius content node (`creator-node/src`) that keep state, and proves what
they keep. Postgres tables are sequences, sets and maps of rows, Redis is maps and sets, the disk is a map from
paths to entries or bytes, and other nodes, the clock and every call that can fail are parameters that may answer
anything. Code that changes state step by step is a class or method proved against a specification; what spans
calls, processes or whole runs is a state machine over its steps with lemmas about every run.

| file | what it models |
|---|---|
| `Blacklist.dfy` | the Redis blacklist index that shadows four tables, and the two caches of the servability check |
| `GatherFiles.dfy` | collecting, page by page, the paths only one user needs |
| `FileTree.dfy` | the disk as a tree of paths, and what removing parts of it means |
| `Removals.dfy`, `RemovalOutcomes.dfy`, `RemovalRaces.dfy` | recursive removals that run at the same time, their calls interleaving in any order: what they keep, what their outcomes mean, when they get in each other's way |
| `DeleteFiles.dfy` | recursive deletion, chunks of concurrent removals, draining the Redis set |
| `LegacyMigration.dfy` | the loop that moves rows off legacy paths and stops when a query repeats its result |
| `Sweep.dfy` | garbage collection of orphaned files while uploads and row changes go on |
| `ClockLog.dfy` | the per-user clocked log under interleaved transactions, wipes and clock repairs |
| `UserWipe.dfy` | deleting all of a user's rows, table by table, under the schema's foreign keys |
| `WriteQuorum.dfy` | waiting for a secondary, and what a success says about the three replicas |
| `WalletLock.dfy` | the expiring per-wallet lock with failing and retried Redis calls |
| `ContentFetch.dfy` | saving buffers and fetching CIDs from gateways that may answer anything |
| `Sessions.dfy` | session tokens in the database and in Redis, and request authentication |
| `FilesHash.dfy` | the text behind `filesHash`, its ranges and its batched form |
| `SortKeys.dfy`, `Json.dfy` | canonical key order, injective printing, signing and recovering |
| `Heartbeat.dfy` | JSON responses streamed with heartbeats |
| `Segments.dfy`, `Text.dfy` | reading segment durations from a printed HLS manifest |
| `TruncateBull.dfy` | shortening job data for the queue dashboard |
| `Util.dfy` | shared vocabulary |

## What the proofs found

Several promises hold only under a condition. Each has a lemma with the exact condition, or a concrete run that
breaks it:

- A blacklist removal keeps the index exact if and only if the removed rows' footprint is disjoint from what the
  remaining rows imply (`RemoveExactIffDisjoint`). One that fails after some of its three SREMs leaves it sound if and
  only if the remaining rows imply what was left behind of the listed ones (`PartialRemoveSoundIff`); otherwise no add
  or resync heals it (`StaleElementsStay`), and repeating the removal does (`RepeatedRemovalRestoresSoundness`).
- The expiry given for the set of invalid track ids is never applied (`blacklistManager.js:476-489`), although the
  comment at line 565 relies on it. All questions about a track are answered rightly if and only if it has no segments
  or nobody asked for a blacklisted CID under its id before it was uploaded (`AgreesIffNotAskedTooEarly`).
- Gathering is complete if and only if the first exclusive path is on the first page and consecutive ones are fewer
  than a page of rows apart (`CompleteIffGapsFit`); with a page of one row it would not end (`SingleRowPagesRepeat`).
- When all rows of a path can be copied or none, the legacy migration moves everything copyable if and only if fewer
  than a batch of rows that cannot be copied precede the first row of each copyable path
  (`MovesEverythingIffFirstRowsInReach`).
- The removals of a chunk run at the same time and can fail each other: when a directory and a file in it are in one
  chunk, the file can go between the directory's listing and its lookup, so that the directory is rejected and stays
  (`RaceCounterexample`). When nothing refuses to go, every interleaving of a chunk removes exactly its subtrees if and
  only if no existing path of the chunk lies strictly beneath another (`ChunkExactIffUnnested`), and an existing path is
  sure to go if and only if no other existing path of the chunk lies above or beneath it (`SucceedsIffUnmet`).
- Draining can delete another user's file, but only one that lies beneath a gathered directory, whatever interleaves and
  whatever fails (`OtherUsersFileSurvivesUnlessBeneath`). When nothing refuses to go and no chunk finds one of its paths
  beneath another, it deletes exactly those (`OtherUsersFileSurvivesIffNotBeneath`); otherwise such a file can survive,
  as the second file in `RaceCounterexample` does.
- Wiping a user fails, and changes nothing, as soon as the user has a Playlists row: no delete covers that table, and it
  refers to the user and to the user's files (`DeleteAllCNodeUserData`, `BlockedIffHasPlaylist`).
- `createNewDataRecord` pairs records and data rows if and only if no committed transaction let two calls overlap
  (`PairedIffNoOverlapCommitted`, `UnawaitedCallsCounterexample`). No present caller does: all await their calls one
  after the other (such as `trackContentUploadManager.ts:213-235`, `files.js:789-814` and
  `primarySyncFromSecondary.js:573-581`). Gap freedom needs no such condition (`EveryRunIsGapFree`).
- The write quorum resolves early on a duplicate or uncreated sync request
  (`stateReconciliationUtils.js:135-148`), and syncs never carry Playlists rows (`exportComponentService.js:41-89`). So
  "two of three replicas" is guaranteed for everything up to the clock if and only if some secondary reported the clock
  and none of the records is a playlist's (`SuccessIsDurableIffCaughtUp`, `EnforcedReturnMeans`).
- Mutual exclusion of the wallet lock fails if and only if some set finds no live key while a call is inside whose key
  has expired or was deleted by another call (`ExclusiveIffNoKeyIsLost`). Another call's delete hits it after a delete
  whose answer was lost, and because both sync routines release even when acquiring failed
  (`LostDeleteReplyCounterexample`, `ReleaseAfterFailedAcquireCounterexample`, `ForeignDelLetsAnotherIn`); it expires
  when a critical section outlives it (`OverrunLetsAnotherIn`, `OverrunCounterexample`).
- A sweep removes a file if and only if it listed it last of its name and its query found no row (`RemovedIff`). So a
  file whose row was there in time at every moment is lost if and only if, besides, it was written or unlinked between
  the listing and the query (`LostIff`, `RewrittenFileIsLost`). A write after the query is harmless unless the file was
  unlinked before it (`RecreatedFileIsLost`).
- A stream that breaks while it is written leaves a partial file behind (`fileManager.js:365`), which later counts
  as stored; wrong bytes stay if and only if some attempt left them and no later one touched the file
  (`GarbageStaysIff`).
- A heartbeat body is JSON if and only if the response object is not empty (`BodyIsJsonIffNotEmpty`).
- `deleteSessions` clears Redis even when the database rows survive; its tokens then go on verifying
  (`BulkDeletionHoldsIffDatabaseDid`). A deletion that fails in Redis leaves a cached token in force
  (`HalfDeletedTokensVerifyUntilCleared`).
- An upper clock bound of 0 is dropped from the filesHash query (`ZeroUpperBoundIsDropped`).
- The cached listen signature ignores the private key it is asked for (`ListenSigner.Generate`).
- `find -mtime +4` means five whole days, not the four that the constant's name suggests (`Sweep.IsOld`).
- Text and key counts are limited only in members of objects, not in arrays or at the root, against the doc comment
  of `_truncateBull` (`ItemsAreNotShortened`).

## Model

| member | source | states |
|---|---|---|
| Blacklist.FootprintAdditive | creator-node/src/blacklistManager.js:110-143 | what the tables imply for the Redis sets is additive over ContentBlacklist rows, so batches compose |
| Blacklist.FootprintSplit | creator-node/src/blacklistManager.js:196-235 | removed and remaining rows together still cover everything the old rows implied |
| Blacklist.StepKeepsSound | creator-node/src/blacklistManager.js:324-361 | adds and resyncs that lose any of their writes, and complete removals, leave no set with more than the tables imply |
| Blacklist.RunKeepsSound | creator-node/src/blacklistManager.js:110-235 | the same for every state of every run |
| Blacklist.MissingAfterAdd | creator-node/src/blacklistManager.js:324-342 | a clean add misses exactly what was missing before less its own footprint, so it keeps the index exact |
| Blacklist.MissingAfterRemove | creator-node/src/blacklistManager.js:344-361 | a clean removal under-approximates by exactly the removed footprint that the remaining rows still imply |
| Blacklist.RemoveExactIffDisjoint | creator-node/src/blacklistManager.js:196-235 | removal preserves equality if and only if the removed and remaining footprints are disjoint |
| Blacklist.MissingIffInexact | creator-node/src/blacklistManager.js:110-235 | a sound index that misses nothing is exact, and conversely |
| Blacklist.ResyncExactIffSound | creator-node/src/blacklistManager.js:70-143 | an error-free resync restores equality if and only if the index held nothing stale |
| Blacklist.ResyncHealsEveryRun | creator-node/src/blacklistManager.js:70-190 | whatever adds, removals and partial writes came before, one clean resync makes the index exact |
| Blacklist.StaleElementsStay | creator-node/src/blacklistManager.js:196-235 | whatever a failed removal left behind in any of the three sets stays through every later add and resync |
| Blacklist.FailedRemoveCounterexample | creator-node/src/blacklistManager.js:344-361 | whichever of the three SREMs is the first to fail, the index can be left unsound |
| Blacklist.PartialRemoveSoundIff | creator-node/src/blacklistManager.js:219-234 | with only the first SREMs done, the index stays within what the tables imply if and only if the remaining rows imply what was left behind of the rows that were listed, whatever else the request names |
| Blacklist.PartialRemoveExactIff | creator-node/src/blacklistManager.js:219-234 | and it is exact if and only if, besides, they imply nothing of what was taken out |
| Blacklist.RepeatedRemovalRestoresSoundness | creator-node/src/blacklistManager.js:344-361 | once the same removal goes through nothing stale is left, whatever adds, resyncs, complete removals and failed attempts lie between |
| Blacklist.FirstTrack | creator-node/src/blacklistManager.js:263-270 | the row found for an id has that id, and none is found only if no row has it |
| Blacklist.AskAgreesWithTables | creator-node/src/blacklistManager.js:518-599 | with faithful caches the answer equals the cache-free definition, a call in which something fails serves no more than that, and the caches stay faithful |
| Blacklist.EveryReachableAnswerAgrees | creator-node/src/blacklistManager.js:518-599 | with fixed tracks the same in every cache state reachable by calls, failing ones included, and expiries, whatever the index was at each |
| Blacklist.ServedMeansNotBlacklisted | creator-node/src/blacklistManager.js:518-599 | with an exact index, what is served is what the database does not blacklist |
| Blacklist.CachesOfEveryRun | creator-node/src/blacklistManager.js:549-583 | over runs with uploads positive entries stay right, and an id is marked invalid exactly when it was asked for too early |
| Blacklist.AgreesIffNotAskedTooEarly | creator-node/src/blacklistManager.js:476-489 | all questions about an id are answered rightly if and only if its track has no segments or nobody asked for a blacklisted CID under this id before the upload |
| Blacklist.NothingIsServedWrongly | creator-node/src/blacklistManager.js:518-599 | over runs with uploads and failures a wrong answer is always a denial |
| Blacklist.UploadedTrackStaysDenied | creator-node/src/blacklistManager.js:560-569 | a request, the upload and the same request: denied, though the CID is the track's |
| Blacklist.RowsNameTheValues | creator-node/src/blacklistManager.js:369-386 | a request's rows carry exactly its values, of its one type |
| Blacklist.BlacklistManager.AddToRedisInChunks | creator-node/src/blacklistManager.js:429-443 | chunks of 100000 add the whole list when no SADD fails, and only part of it, silently, when one does |
| Blacklist.BlacklistManager.TracksFromUsers | creator-node/src/blacklistManager.js:241-255 | the two-level query returns the tracks owned by the users with these ids |
| Blacklist.BlacklistManager.CidsToBlacklist | creator-node/src/blacklistManager.js:278-322 | the set built from track metadata and Files rows is the specified one, whitelist and file types included |
| Blacklist.BlacklistManager.AddAggregateCids | creator-node/src/blacklistManager.js:149-190 | batches of 200 tracks amount to one unbatched union |
| Blacklist.BlacklistManager.FetchCidsAndAdd | creator-node/src/blacklistManager.js:110-143 | adds the footprint of the named rows, or part of it when a SADD fails |
| Blacklist.BlacklistManager.RemoveFromRedis | creator-node/src/blacklistManager.js:498-516 | removes all the data or none; an unanswered call may have removed it; an empty list needs no call |
| Blacklist.BlacklistManager.FetchCidsAndRemove | creator-node/src/blacklistManager.js:196-235 | removes the footprint of the named rows set by set; after the first error the later sets stay as they were |
| Blacklist.BlacklistManager.InsertRows | creator-node/src/blacklistManager.js:369-386 | inserts rows, ignoring duplicates |
| Blacklist.BlacklistManager.DeleteRows | creator-node/src/blacklistManager.js:394-420 | deletes exactly the rows with these values and type |
| Blacklist.BlacklistManager.Add | creator-node/src/blacklistManager.js:324-342 | every call is an Added step of the state machine |
| Blacklist.BlacklistManager.Remove | creator-node/src/blacklistManager.js:344-361 | every call is a Removed step, complete whenever it reports success |
| Blacklist.BlacklistManager.Resync | creator-node/src/blacklistManager.js:70-143 | re-adding everything ContentBlacklist lists is a Resynced step |
| Blacklist.BlacklistManager.IsServable | creator-node/src/blacklistManager.js:518-599 | every call is an Asked event, with the failures it met; it never serves what the definition denies, and without failed reads it equals the definition |
| Blacklist.BlacklistManager.Lookup | creator-node/src/blacklistManager.js:557-583 | finds exactly the segments in the database and caches them, or marks an id without a track |
| GatherFiles.SortedPathsOrdersTheRows | creator-node/src/dbManager.js:191-204 | the ordered query lists the user's paths ascending, each as often as it has rows |
| GatherFiles.PositionSplits | creator-node/src/dbManager.js:193-204 | a token's position separates the smaller paths from the rest |
| GatherFiles.OnPage | creator-node/src/dbManager.js:193-204 | a path is on the page exactly if the user has it, it is not below the token and fewer than a page of rows lie between |
| GatherFiles.UniqueInRangeLists | creator-node/src/dbManager.js:216-229 | the grouped query lists, ascending, the paths of the range that one user references |
| GatherFiles.CommonPathsAreExclusive | creator-node/src/dbManager.js:240-246 | what both queries list is this user's and nobody else's |
| GatherFiles.GetCNodeUserFiles | creator-node/src/dbManager.js:179-246 | returns exactly the page's exclusive paths, ascending |
| GatherFiles.CompleteIffGapsFit | creator-node/src/diskManager.ts:207-224 | gathering is complete if and only if the first exclusive path is on the first page and consecutive ones are fewer than one page of rows apart |
| GatherFiles.SingleRowPagesRepeat | creator-node/src/diskManager.ts:211-224 | with one row per page the page at a found path is full and brings nothing new |
| GatherFiles.PageIsStretch | creator-node/src/dbManager.js:193-246 | a page has every exclusive path from the token to its last one and no other |
| GatherFiles.RoundKeepsProgress | creator-node/src/diskManager.ts:211-224 | after each round everything exclusive up to the token is in, and a page of two brings a new path |
| GatherFiles.LastRoundHasReachedAll | creator-node/src/diskManager.ts:211-224 | when a page brings nothing new, everything reachable has been collected |
| GatherFiles.PathsToDelete.Sadd | creator-node/src/diskManager.ts:218 | the reply counts the new members, and is zero exactly if there were none |
| GatherFiles.PathsToDelete.Gather | creator-node/src/diskManager.ts:190-226 | ends for any page size of two or more, returns the size of the set, and collects exactly the linked exclusive paths |
| FileTree.WithoutKeepsTree | creator-node/src/diskManager.ts:128-147 | removing a subtree leaves a file tree |
| FileTree.BeneathAChild | creator-node/src/diskManager.ts:136-143 | what lies beneath a directory lies beneath one of the entries that readdir lists |
| FileTree.ChildrenThenDirectory | creator-node/src/diskManager.ts:135-146 | removing the children's subtrees and then the directory removes exactly its subtree |
| Removals.CallTakesOneLeaf | creator-node/src/diskManager.ts:128-147 | a single call takes nothing, or one entry with nothing beneath it that does not refuse to go |
| Removals.ListingIsThorough | creator-node/src/diskManager.ts:136-146 | the listed entries and then the directory cover everything beneath the directory |
| Removals.CallKeepsThorough | creator-node/src/diskManager.ts:128-147 | as long as a removal has not failed, its calls still to be made reach everything left beneath its path, each directory after its contents |
| Removals.StepKeepsInv | creator-node/src/diskManager.ts:164-167 | the same for every removal of a chunk, whichever of them makes its next call; nothing outside their paths is touched |
| Removals.RunKeepsInv | creator-node/src/diskManager.ts:164-167 | and so in every state of every interleaving |
| Removals.ReadyCallSucceeds | creator-node/src/diskManager.ts:128-147 | when all that a removal's calls are about is still there and nothing refuses, its next call succeeds and leaves the rest so |
| RemovalOutcomes.RunGetsThrough | creator-node/src/diskManager.ts:164-167 | on every interleaving a removable path with no existing path of the chunk above or beneath it never fails |
| RemovalOutcomes.FinishedIsAccounted | creator-node/src/diskManager.ts:164-169 | for every interleaving of a chunk: nothing outside the subtrees goes; a success means the path was removable and nothing is left at it, a failure that it was not removable or that an existing path of the chunk lies above or beneath it |
| RemovalOutcomes.OutcomeOfThisOne | creator-node/src/diskManager.ts:160-169 | what is removable after some chunks was so at the start; what no longer is lay beneath a path tried before |
| RemovalOutcomes.AttemptsCompose | creator-node/src/diskManager.ts:163-169 | the accounts of consecutive chunks compose to that of the joined list |
| RemovalOutcomes.UnnestedAttemptsSucceedIffRemovable | creator-node/src/diskManager.ts:156-180 | with no existing path beneath another a removal succeeds if and only if its path is removable at the start |
| RemovalOutcomes.UnnestedRemovesExactly | creator-node/src/diskManager.ts:156-180 | and when nothing refuses to go exactly the subtrees of the paths are gone |
| RemovalOutcomes.SinglePath | creator-node/src/diskManager.ts:128-147 | a chunk of one path does what `DeleteFileOrDir` promises |
| RemovalRaces.SiblingsAddUp | creator-node/src/diskManager.ts:136-143 | the subtrees of listed entries do not overlap, so the calls they lead to add up |
| RemovalRaces.CallLosesWeight | creator-node/src/diskManager.ts:128-147 | every call brings its removal nearer to its end, however the disk changes meanwhile |
| RemovalRaces.CanFinish | creator-node/src/diskManager.ts:164-167 | from wherever the removals of a chunk have got to they can all be brought to their ends |
| RemovalRaces.Descend | creator-node/src/diskManager.ts:135-146 | a directory's removal can be brought, taking nothing, to its lookup of any entry beneath it |
| RemovalRaces.FailsFromHere | creator-node/src/diskManager.ts:138-142 | once the entry that a removal looks up next is gone, the removal fails, whatever the others do then |
| RemovalRaces.SucceedsIffUnmet | creator-node/src/diskManager.ts:164-167 | when nothing refuses to go, an existing path is removed in every interleaving if and only if no other existing path of the chunk lies above or beneath it |
| RemovalRaces.ChunkExactIffUnnested | creator-node/src/diskManager.ts:164-167 | when nothing refuses to go, every interleaving of a chunk of distinct paths removes exactly their subtrees if and only if no existing path of the chunk lies strictly beneath another |
| RemovalRaces.RaceCounterexample | creator-node/src/diskManager.ts:164-167 | a directory and one of its two files in one chunk: the directory is rejected and stays, with its other file, though nothing refuses to go |
| DeleteFiles.DiskManager.Unlink | creator-node/src/diskManager.ts:129-133 | a file that goes takes nothing else with it; one that does not leaves the disk as it was |
| DeleteFiles.DiskManager.DeleteFileOrDir | creator-node/src/diskManager.ts:128-147 | running alone, succeeds exactly if the entry exists and nothing beneath it refuses to go, and then removes exactly its subtree; a failure touches nothing outside |
| DeleteFiles.DiskManager.DeleteChunk | creator-node/src/diskManager.ts:164-168 | starts the removals of a chunk together and ends, in a state that some interleaving of their calls leads to and that accounts for every outcome |
| DeleteFiles.DiskManager.BatchDelete | creator-node/src/diskManager.ts:156-180 | attempts every path once, chunk by chunk, every outcome accounted for whatever interleaves and fails; if nothing refuses to go and no chunk finds one of its paths beneath another, exactly the subtrees go and a path counts exactly if it was there and no earlier chunk took it; the number returned is the number of successes |
| DeleteFiles.DiskManager.CountSuccesses | creator-node/src/diskManager.ts:171-179 | the returned number is the number of fulfilled promises |
| DeleteFiles.DiskManager.Spop | creator-node/src/diskManager.ts:247-250 | pops distinct members, as many as asked for or all |
| DeleteFiles.DiskManager.PopAndDelete | creator-node/src/diskManager.ts:245-258 | one round pops and deletes one batch, or finds the set empty |
| DeleteFiles.DiskManager.DeletePopped | creator-node/src/diskManager.ts:253-257 | adds one popped batch to the account and to the count |
| DeleteFiles.DiskManager.DeleteAllGathered | creator-node/src/diskManager.ts:235-263 | empties the set, attempts each gathered path exactly once when asked for as many as there are, returns exactly the number of successes, and accounts for all pops as for one batch |
| DeleteFiles.PopsCompose | creator-node/src/diskManager.ts:245-259 | when pops fill their chunks, exact removals of consecutive pops are exact removals of the joined list |
| DeleteFiles.MultipleIsBoundary | creator-node/src/diskManager.ts:240-241 | a pop of a multiple of the chunk size fills its chunks |
| DeleteFiles.CountIsNumberOfRemovablePaths | creator-node/src/diskManager.ts:171-180 | with no existing path beneath another the number returned is the number of removable paths |
| DeleteFiles.OtherUsersFileSurvivesUnlessBeneath | creator-node/src/diskManager.ts:190-263 | gather and drain together, however removals interleave and fail, leave another user's file as it was unless it lies beneath a gathered directory; if that one's removal succeeded, it is gone |
| DeleteFiles.OtherUsersFileSurvivesIffNotBeneath | creator-node/src/diskManager.ts:190-263 | when nothing refuses to be removed and no chunk finds one of its paths beneath another, it is gone if and only if it lies beneath a gathered path |
| LegacyMigration.LiveAfterRelocate | creator-node/src/dbManager.js:437-467 | after moving some paths the query matches what it matched before without them |
| LegacyMigration.LiveShrinks | creator-node/src/diskManager.ts:624-643 | moving a matching row shortens the query's result for good |
| LegacyMigration.BatchIsInReach | creator-node/src/diskManager.ts:624-643 | whatever a batch shows that can be copied is in every set of paths that is closed under reach |
| LegacyMigration.StuckBatchMeansDone | creator-node/src/diskManager.ts:624-643 | when a batch shows only rows that cannot be copied, nothing more comes into reach |
| LegacyMigration.FewStuckRowsMoveEverything | creator-node/src/diskManager.ts:614-644 | with fewer rows that cannot be copied than a batch, everything copyable is in reach |
| LegacyMigration.MovesEverythingIffFirstRowsInReach | creator-node/src/diskManager.ts:614-644 | when all rows of a path can be copied or none, everything copyable is moved if and only if fewer than a batch of stuck rows precede the first row of every copyable path |
| LegacyMigration.FilesTable.UpdateLegacyPathRows | creator-node/src/dbManager.js:515-533 | rewrites every row of each copied path; a failing update keeps the earlier ones, since the transaction is not passed on |
| LegacyMigration.FilesTable.CopyLegacyFiles | creator-node/src/diskManager.ts:461-580 | reports exactly the paths of the rows that could be copied or may be treated so |
| LegacyMigration.FilesTable.MoveBatch | creator-node/src/diskManager.ts:631-638 | a round either moves a row it showed or leaves the query's result as it was |
| LegacyMigration.FilesTable.MigrateWindow | creator-node/src/diskManager.ts:614-644 | ends within one round more than there are legacy rows whatever fails, rows only swap a legacy path for its new one, and when copying depends on the row alone exactly the paths in reach have moved |
| LegacyMigration.FilesTable.MigrateDirs | creator-node/src/diskManager.ts:646-676 | directory rows need no copy, so the loop ends with no legacy directory row left |
| Sweep.ListNestedCids | creator-node/src/diskManager.ts:306-332 | maps each leaf name to the last listed path with it, the subdirectory itself left out |
| Sweep.ChooseDoomed | creator-node/src/diskManager.ts:378-395 | chooses exactly the listed CIDs the database did not return, and nothing without the success row |
| Sweep.PassKnows | creator-node/src/diskManager.ts:378-395 | after its query a pass knows the rows that were there at the query, and no later ones |
| Sweep.RemovalsFollowASuccessfulQuery | creator-node/src/diskManager.ts:386-387 | on every run the sweeper may remove exactly when a listing and then a successful query are what it did last, and it knows the rows of that moment |
| Sweep.RemovedIff | creator-node/src/diskManager.ts:334-435 | on every run a removal takes a file if and only if its pass listed it last of its name and the query found no row for it |
| Sweep.UntouchedStaysOld | creator-node/src/diskManager.ts:346-360 | a listed file that nobody touches is still there, and old |
| Sweep.LostIff | creator-node/src/diskManager.ts:334-435 | a file with its row in time at every moment is lost to a pass if and only if the pass listed it last of its name, it was written or unlinked between listing and query, and its row was missing at the query |
| Sweep.SweepSparesFilesWithRows | creator-node/src/diskManager.ts:334-435 | on every run a file with its row in time, which no pass finds touched between its listing and its query, is removed by no pass |
| Sweep.TimelyRowsAreInTime | creator-node/src/diskManager.ts:497-502 | if each write of a file is followed by its row within the pruning age and the row is kept, the row is there whenever the file is old |
| Sweep.SweepSparesTimelyFiles | creator-node/src/diskManager.ts:334-435 | hence such a file, if no pass finds it touched between its listing and its query, is removed by no pass |
| Sweep.RewrittenFileIsLost | creator-node/src/diskManager.ts:346-417 | a run in which a rewrite between listing and query loses a file whose row was there in time at every moment |
| Sweep.RecreatedFileIsLost | creator-node/src/diskManager.ts:346-417 | any listed file can be unlinked before the query, written again after it with its row, and then removed |
| Sweep.UndisturbedPassCollects | creator-node/src/diskManager.ts:306-332 | an old file without a row is collected if and only if no entry listed after it has its leaf name; unlisted files stay |
| Sweep.OldStaysOld | creator-node/src/diskManager.ts:312-314 | age only grows, so what was old at listing is old at the query |
| ClockLog.FullRangeIsGapFree | creator-node/src/dbManager.js:42-49 | as many distinct record clocks in 1..clock as the clock says are all of them |
| ClockLog.StepKeepsInv | creator-node/src/dbManager.js:25-61 | every statement, commit, rollback, wipe and repair keeps the counting invariant |
| ClockLog.EveryRunIsGapFree | creator-node/src/dbManager.js:25-61 | under every interleaving each user's committed clock records are exactly 1..clock |
| ClockLog.StepKeepsRows | creator-node/src/dbManager.js:25-61 | every step keeps each log complete, or spoilt by a call that overlapped another |
| ClockLog.PairedIffNoOverlapCommitted | creator-node/src/dbManager.js:25-61 | on every run each committed record of a user has exactly one data row, in its source table, if and only if no transaction with overlapping calls was committed for the user |
| ClockLog.OverlappedCommitBreaksThePairing | creator-node/src/dbManager.js:31-58 | committing a transaction whose calls overlapped always leaves a record without its row |
| ClockLog.AwaitedRunsPairRowsWithRecords | creator-node/src/components/tracks/trackContentUploadManager.ts:213-235 | when calls in a transaction are awaited one after the other, as here, all records are paired |
| ClockLog.UnawaitedCallsCounterexample | creator-node/src/dbManager.js:31-58 | from an empty database, two calls not awaited in one transaction commit two rows at one clock and none at the other, and no constraint objects |
| ClockLog.FixLeavesConsistentUsersAlone | creator-node/src/dbManager.js:399-419 | the repair changes nothing for a gap-free user |
| ClockLog.FixSetsClockToMaxRecord | creator-node/src/dbManager.js:399-419 | the repair makes the clock the highest record, changes nothing else and is idempotent |
| ClockLog.FixChangesNothing | creator-node/src/dbManager.js:399-419 | in every reachable database the repair has no effect |
| UserWipe.BlockedIffHasPlaylist | creator-node/src/routes/playlists.js:118-162 | since playlists refer to files of their own user, only the user's own Playlists rows can block a wipe |
| UserWipe.WipedIsReferential | creator-node/sequelize/migrations/20220427014326-create-playlist-table-and-clock-record-type.js:88-141 | a wipe that nothing blocks leaves every foreign key intact |
| UserWipe.WipeEmptiesTheUser | creator-node/src/dbManager.js:96-146 | and leaves no row of the user in any table |
| UserWipe.WipeTouchesOneUser | creator-node/src/dbManager.js:96-146 | no row of any other user, and so no other user's log, is touched |
| UserWipe.BlockedIffLogHasPlaylist | creator-node/sequelize/migrations/20220427014326-create-playlist-table-and-clock-record-type.js:88-141 | the wipe is blocked exactly when the user's clocked log has a Playlist row |
| UserWipe.Database.DestroyFiles | creator-node/src/dbManager.js:105-124 | the files go unless a Playlists row refers to one of them |
| UserWipe.Database.DestroyClockRecords | creator-node/src/dbManager.js:129-132 | the clock records go unless a data row refers to one of them |
| UserWipe.Database.DestroyUser | creator-node/src/dbManager.js:145-147 | the user row goes unless any row refers to it |
| UserWipe.Database.DeleteRows | creator-node/src/dbManager.js:96-146 | the deletes in their order succeed if and only if no Playlists row blocks them and every statement gets through |
| UserWipe.Database.DeleteAllCNodeUserData | creator-node/src/dbManager.js:68-169 | the user is wiped if and only if it exists, nothing blocks the wipe and every statement gets through; otherwise nothing changes; an unknown user is no error |
| ClockLog.CallExtendsTheLog | creator-node/src/dbManager.js:25-61 | on a consistent log no statement of a call fails unless another row has its pair of blockchain id and clock, and the result is the log with one more record and row |
| ClockLog.TransactionView.CreateNewDataRecord | creator-node/src/dbManager.js:25-61 | a call succeeds exactly if both inserts find their keys free, the one shared by all users included, and then extends the log by one |
| WriteQuorum.IssueSyncRequestsUntilSynced | creator-node/src/services/stateMachineManager/stateReconciliation/stateReconciliationUtils.js:118-182 | resolves early on a duplicate or uncreated request, else exactly if a poll in time showed the clock |
| WriteQuorum.CaughtUpIffPolled | creator-node/src/services/stateMachineManager/stateReconciliation/stateReconciliationUtils.js:150-181 | waiting ends with the clock if and only if a poll in time showed it |
| WriteQuorum.PromiseAny | creator-node/src/middlewares.js:396-397 | resolves if and only if one promise does; not for an empty list |
| WriteQuorum.WaitForSecondaries | creator-node/src/middlewares.js:349-397 | succeeds if and only if some secondary with a usable endpoint resolved |
| WriteQuorum.IssueAndWaitForSecondarySyncRequests | creator-node/src/middlewares.js:259-447 | enforced, it returns normally if and only if the node was ready to ask and some secondary resolved; not enforced, it never throws |
| WriteQuorum.ReplicaStepKeepsCertified | creator-node/src/services/sync/secondarySyncFromPrimary.ts:646-702 | writes, contiguous syncs in chunks and wipes keep each secondary at exactly the primary's records and exported rows up to its clock |
| WriteQuorum.EveryClusterIsCertified | creator-node/src/components/replicaSet/exportComponentService.js:38-89 | the same on every run: Playlists rows are never exported, everything else is |
| WriteQuorum.ReplicasCanBeWiped | creator-node/src/services/sync/secondarySyncFromPrimary.ts:181-205 | a secondary has no Playlists row, so its forced wipe is never blocked |
| WriteQuorum.ReplicaHoldsExported | creator-node/src/services/sync/secondarySyncFromPrimary.ts:646-702 | a replica whose clock is that high has every record, and the data row of every one that is no playlist's |
| WriteQuorum.ReplicaHoldsIffNoPlaylists | creator-node/src/components/replicaSet/exportComponentService.js:41-89 | it has all data rows if and only if no record up to the clock is a playlist's |
| WriteQuorum.ExportedIsDurableIffCaughtUp | creator-node/src/middlewares.js:381-409 | every record and every exported row up to the clock survives losing any one replica if and only if a secondary reported the clock |
| WriteQuorum.SuccessIsDurableIffCaughtUp | creator-node/src/middlewares.js:381-409 | every record and every data row up to the clock survives losing any one replica if and only if a secondary reported the clock and no record up to it is a playlist's |
| WriteQuorum.EnforcedReturnMeans | creator-node/src/middlewares.js:259-447 | from an enforced normal return to the replicas: what is sure to survive, by what the secondaries were asked and showed |
| WalletLock.NoForeignDelMeansExclusion | creator-node/src/redis.js:69-127 | if critical sections end in time and no delete hits another call's key, no two overlap, however calls fail and are retried |
| WalletLock.DisciplineAvoidsForeignDels | creator-node/src/redis.js:113-127 | with timely releases by holders only, and failed deletes without effect, no delete hits another's key |
| WalletLock.DisciplinedRunsAreExclusive | creator-node/src/redis.js:69-127 | hence on every such run critical sections never overlap |
| WalletLock.ForeignDelLetsAnotherIn | creator-node/src/redis.js:113-127 | once a delete hits a holder's key the next set puts two calls inside |
| WalletLock.OverrunLetsAnotherIn | creator-node/src/redis.js:83-92 | once any holder's key has expired the next set puts two calls inside |
| WalletLock.ExclusiveIffNobodyEntersBeside | creator-node/src/redis.js:69-127 | on every run critical sections overlap if and only if some set finds no live key while another call is inside |
| WalletLock.HolderHasItsKey | creator-node/src/redis.js:83-127 | on every run a call inside has its own key in Redis until that expires or another call's delete hits it |
| WalletLock.ExclusiveIffNoKeyIsLost | creator-node/src/redis.js:69-127 | on every run critical sections never overlap if and only if no set finds no live key while a call is inside whose key has expired or was deleted by another |
| WalletLock.HoldersSetTheKeyThemselves | creator-node/src/redis.js:83-105 | on every run whoever is in its critical section got there by a set of its own that found no live key, and has not finished since |
| WalletLock.LostDeleteReplyCounterexample | creator-node/src/redis.js:116-126 | a run in which a delete whose answer is lost is retried and deletes the next holder's key, so that two calls are inside |
| WalletLock.ReleaseAfterFailedAcquireCounterexample | creator-node/src/services/sync/secondarySyncFromPrimary.ts:73-85 | a run in which releasing after a failed acquire lets a third call in while the holder is inside |
| WalletLock.OverrunCounterexample | creator-node/src/redis.js:20 | a run in which a critical section outlives its key and another call enters |
| WalletLock.WalletWriteLock.Acquire | creator-node/src/redis.js:69-106 | success means this call's set found the lock free; a held lock is left as it was; each error has its cause |
| WalletLock.WalletWriteLock.Release | creator-node/src/redis.js:113-127 | succeeds exactly if one of six tries is answered, and then no lock is held |
| ContentFetch.GarbageStaysIff | creator-node/src/fileManager.js:331-389 | wrong bytes stay if and only if some attempt leaves them and no later one touches the file |
| ContentFetch.CleanWorldLeavesNoGarbage | creator-node/src/fileManager.js:331-389 | with whole writes and working unlinks no wrong bytes stay, whatever gateways answer |
| ContentFetch.AttemptNumber | creator-node/src/fileManager.js:249-317 | gateways are tried in order, each at most retries + 1 times |
| ContentFetch.AttemptsAreBounded | creator-node/src/fileManager.js:139-223 | at most (gateways) * (retries + 1) attempts in all |
| ContentFetch.OtherNodes | creator-node/src/fileManager.js:433-437 | the registered nodes without the targets and without this node |
| ContentFetch.ContentStore.FetchFromTargetGateway | creator-node/src/fileManager.js:331-389 | succeeds exactly on a body that hashes to the CID, bails out exactly on 400, 401 and 403, and leaves exactly the specified bytes |
| ContentFetch.ContentStore.FetchWithRetries | creator-node/src/fileManager.js:249-317 | retries in order until success, bail-out or the last retry |
| ContentFetch.ContentStore.FetchFromNetworkAndWrite | creator-node/src/fileManager.js:124-235 | targets first; the rest only if allowed and not tried before; success means verified bytes, failure after everyone allowed was asked |
| ContentFetch.ContentStore.FetchFileAndSave | creator-node/src/fileManager.js:409-557 | an existing file is returned untouched; otherwise the store stays content-addressed and the attempts are the ones accounted for |
| ContentFetch.ContentStore.SaveFromBuffer | creator-node/src/fileManager.js:28-73 | ends within retries + 1 attempts, succeeds exactly if some attempt before a failed write verifies, and leaves no unverified contents |
| Sessions.StepKeepsConsistent | creator-node/src/sessionManager.ts:17-67 | every step keeps the two bindings of a token equal, whichever call in it fails |
| Sessions.BindingsNeverDisagree | creator-node/src/sessionManager.ts:17-67 | the same on every run |
| Sessions.VerifiedMeansIssuedTo | creator-node/src/sessionManager.ts:17-36 | a token verifies only as the user a session was created for with it |
| Sessions.GoneForGood | creator-node/src/sessionManager.ts:28-42 | a token gone from both stores never verifies again |
| Sessions.DeletedTokensNeverVerify | creator-node/src/sessionManager.ts:38-42 | after a completed deleteSession the token never verifies and never authenticates |
| Sessions.HalfDeletedTokensVerifyUntilCleared | creator-node/src/sessionManager.ts:38-42 | if the Redis delete fails a cached token goes on verifying until a bulk deletion clears it from Redis, and never after |
| Sessions.DeletionHoldsIffUncached | creator-node/src/sessionManager.ts:38-42 | a deleted token never verifies again if and only if Redis was cleared of it or never had it |
| Sessions.BulkDeletionHoldsIffDatabaseDid | creator-node/src/dbManager.js:254-285 | after a bulk deletion a token never verifies again if and only if the database deletion succeeded and Redis was cleared of it or never had it |
| Sessions.WipedUsersNeverAuthenticate | creator-node/src/middlewares.js:29-60 | after a wipe no request is let through as that user in the rest of the run |
| Sessions.WipeLeavesCachedSessions | creator-node/src/dbManager.js:137-146 | the wipe leaves Redis keys behind: verification still accepts them, authentication does not |
| Sessions.SessionManager.CreateSession | creator-node/src/sessionManager.ts:17-25 | the row and then the key are made; success means the token verifies as the user |
| Sessions.SessionManager.VerifySession | creator-node/src/sessionManager.ts:28-36 | Redis first, the database when Redis has nothing |
| Sessions.SessionManager.DeleteSession | creator-node/src/sessionManager.ts:38-42 | fails without effect for an unknown token; success means the token no longer verifies |
| Sessions.SessionManager.DeleteSessions | creator-node/src/sessionManager.ts:44-67 | clears Redis even when the swallowed database error kept the rows |
| Sessions.SessionManager.Authorize | creator-node/src/middlewares.js:29-60 | lets a request through only with a verified token of an existing user |
| FilesHash.ClocksAreOrdered | creator-node/src/dbManager.js:301-325 | the selected clocks are exactly the user's in the range, ascending |
| FilesHash.ListingFollowsClocks | creator-node/src/dbManager.js:301-325 | the multihashes are listed in clock order |
| FilesHash.ListingSplits | creator-node/src/dbManager.js:316-325 | a range is the concatenation of its two parts |
| FilesHash.AggregateIsInjective | creator-node/src/dbManager.js:301-304 | comma-joining comma-free multihashes is injective, null included |
| FilesHash.SameTextIffSameFiles | creator-node/src/dbManager.js:296-342 | two users have the same text to hash if and only if they have the same file sequence |
| FilesHash.AdjacentRangesCompose | creator-node/src/dbManager.js:316-325 | the texts of [a,b) and [b,c) compose to that of [a,c), also without an upper end |
| FilesHash.ZeroUpperBoundIsDropped | creator-node/src/dbManager.js:321-325 | an upper bound of 0 selects everything, so composing at 0 is right if and only if there are no files |
| FilesHash.FetchPreHashes | creator-node/src/dbManager.js:355-391 | the grouped query agrees with the single-user query for every user, null for users without files |
| Json.TextReadable | creator-node/src/apiSigning.ts:15-17 | the text of a JSON value determines the value even with more text after it |
| Json.SameTextSameValue | creator-node/src/apiSigning.ts:15-17 | printing is injective |
| SortKeys.OneSortedListing | creator-node/src/apiSigning.ts:109-110 | a set of keys has one sorted listing |
| SortKeys.PutKeepsOrder | creator-node/src/apiSigning.ts:111 | a property created after smaller ones takes its enumeration place, integer-like keys first (section 10.1.11.1 of ECMA-262) |
| SortKeys.BuildMakesEach | creator-node/src/apiSigning.ts:109-111 | the reduce makes exactly one property per key with the sorted value |
| SortKeys.SortKeysKeepsTheValue | creator-node/src/apiSigning.ts:102-112 | sorting changes nothing but key order, at every depth, and puts the keys in order |
| SortKeys.SameMeaningSortsAlike | creator-node/src/apiSigning.ts:102-112 | values that differ only in key order are sorted to the same value |
| SortKeys.SortKeysIsCanonical | creator-node/src/apiSigning.ts:102-112 | sorted values agree if and only if the values differ only in key order |
| SortKeys.SortKeysIsIdempotent | creator-node/src/apiSigning.ts:102-112 | sorting twice is sorting once |
| SortKeys.SortKeysStaysPrintable | creator-node/src/apiSigning.ts:102-112 | sorting keeps a value printable |
| SortKeys.SameSignedTextIffSameMeaning | creator-node/src/apiSigning.ts:15-22 | two values are signed as the same text if and only if they differ only in key order |
| SortKeys.RecoverFindsTheSigner | creator-node/src/apiSigning.ts:76-82 | recovering from the signed data in any key order gives the signer's wallet |
| SortKeys.ListenSigner.Generate | creator-node/src/apiSigning.ts:50-68 | the result is never expired, is the cached one as long as that is valid, and recovers to the caller's wallet if and only if the cached key has the same one |
| Heartbeat.BodyIsOneObject | creator-node/src/apiHelpers.ts:60-76 | with a non-empty response the body is the text of one object: `_h` with one character per tick, then the response's members |
| Heartbeat.EmptyObjectBreaksTheBody | creator-node/src/apiHelpers.ts:160-166 | with an empty response the body is no JSON value's text |
| Heartbeat.BodyIsJsonIffNotEmpty | creator-node/src/apiHelpers.ts:160-166 | the body is a JSON value's text if and only if the response is not empty |
| Heartbeat.BodyDeterminesTheResponse | creator-node/src/apiHelpers.ts:160-166 | tick count and response can be read back from the body |
| Heartbeat.TerminatorText | creator-node/src/apiHelpers.ts:160-163 | the terminator is the closing quote, a comma and the object's text without its brace |
| Heartbeat.Response.Tick | creator-node/src/apiHelpers.ts:64-68 | a tick after the end writes nothing |
| Heartbeat.Response.HandleWithHeartbeat | creator-node/src/apiHelpers.ts:45-82 | for any number of ticks before and after, resolved or thrown, nothing is written after the end and the body is the specified one |
| Segments.FindFrom | creator-node/src/segmentDuration.ts:4 | a match lies within the line and starts where the search may start |
| Segments.GetSegmentsDuration | creator-node/src/segmentDuration.ts:7-27 | the loop computes the specified map, later lines overriding earlier ones |
| Segments.ErrorIffNameFirst | creator-node/src/segmentDuration.ts:15-21 | reading fails if and only if the first line names a segment |
| Segments.SegmentLineNames | creator-node/src/segmentDuration.ts:15-19 | the leftmost match on a printed line skips the `segments/` prefix and takes exactly the file name |
| Segments.SegmentNamesDiffer | creator-node/src/ffmpeg.ts:58-61 | zero-padded names are injective for all indices |
| Segments.ExtInfIsPlain | creator-node/src/segmentDuration.ts:15-18 | a duration line names no segment |
| Segments.DurationReadsBack | creator-node/src/segmentDuration.ts:20-22 | the printed duration reads back as the number of seconds |
| Segments.PairsAddUp | creator-node/src/segmentDuration.ts:14-24 | pairs of duration and name lines fill the map one entry at a time |
| Segments.ParsingUndoesPrinting | creator-node/src/segmentDuration.ts:7-27 | any printed manifest parses to exactly the printed map |
| Segments.TableHasEverySegment | creator-node/src/segmentDuration.ts:13-24 | and that map has one entry per segment, with its own duration |
| TruncateBull.CutHere | creator-node/src/serviceRegistry.js:234-288 | an allowed value keeps its shape, any other becomes the note of its kind and size |
| TruncateBull.CutBelow | creator-node/src/serviceRegistry.js:241-280 | below an allowed value truncation goes on one level deeper, below any other nothing is left |
| TruncateBull.TruncatedAt | creator-node/src/serviceRegistry.js:234-289 | path by path: exactly the outermost values that are not allowed become notes, everything below them is gone, everything else stays |
| TruncateBull.TruncatedIsWithinLimits | creator-node/src/serviceRegistry.js:219-289 | the result is within every limit at every path |
| TruncateBull.UnchangedIffWithinLimits | creator-node/src/serviceRegistry.js:234-289 | truncation changes nothing if and only if the data is within all limits |
| TruncateBull.TruncateIsIdempotent | creator-node/src/serviceRegistry.js:234-289 | truncating twice is truncating once |
| TruncateBull.NothingLongOrDeepIsLeft | creator-node/src/serviceRegistry.js:219-233 | no array longer than 100, no non-empty container deeper than 7 levels, and member text and key limits are kept |
| TruncateBull.ItemsAreNotShortened | creator-node/src/serviceRegistry.js:241-251 | text and objects in arrays are kept whatever their size |

## Left out

Assumptions the model makes:

- Blacklist adds, removals and resyncs are completed steps: a resync that read the database before a removal and writes after it is not modelled. Values are integers and CIDs; parsing ids out of text and failing database reads while adding or removing are left out. A segment without a multihash has the empty one.
- Blacklist.AgreesIffNotAskedTooEarly: an uploaded row comes after the older rows of its track id in the query, which names no order. Other changes of the Tracks table are left out.
- Blacklist.BlacklistManager.IsServable: when a write to the cache fails, the caches are specified only if every track has at most 100000 segments, so that its list is one SADD.
- GatherFiles.PathsToDelete.Gather: paths are their rank in the database's order, the space token being the lowest; the grouped query is taken to answer in ascending order, which it does not ask for, and stored paths to be normalised; the page size must be two or more, and the code's is 10000.
- Removals.RunKeepsInv: while a drain runs, nothing else writes or deletes beneath its paths, and which entries refuse to be removed does not change. Listing a directory fails only if it is gone.
- RemovalRaces.ChunkExactIffUnnested: is about distinct paths, which the members of a Redis set are.
- LegacyMigration.FilesTable.MigrateWindow: assumes a deterministic query order and new paths that depend on the legacy path and are not legacy themselves; that exactly the paths in reach move further assumes that copying depends on the row alone and updates succeed. The single-row update inside the network fallback (`diskManager.ts:693-721`) is not modelled, and the contents of copies are not.
- LegacyMigration.FilesTable.MigrateDirs: a directory row's new path is a function of its legacy path, which names the same CID.
- Sweep.RemovedIff: one sweeper per node; `rm` removes the listed files and leaves directories; shell quoting of paths is left out.
- ClockLog.EveryRunIsGapFree: a transaction writes one user's rows. A wipe is one step that waits for the row lock; it has no effect when a Playlists row blocks it, as `UserWipe` shows statement by statement. A wipe that another transaction's commit overtakes fails and changes nothing, which is no step at all.
- UserWipe.Database.DeleteAllCNodeUserData: reads and writes of other transactions between its statements are left out. That playlists refer to files of their own user is what the route that creates them checks.
- WriteQuorum.SuccessIsDurableIffCaughtUp: is about database rows, not about files on disk, which a sync may skip; a secondary that reports a clock has it and does not lose it; syncs are appends of a contiguous range, in one transaction; forced resyncs are wipes followed by syncs; the replica set does not change.
- WalletLock.DisciplinedRunsAreExclusive: discipline is an assumption the two sync routines do not meet, as the counterexamples show.
- ContentFetch.ContentStore.SaveFromBuffer: a write that fails is taken to leave the disk as it was.
- ContentFetch.ContentStore.FetchFileAndSave: computed paths are injective in the CID, a failed unlink leaves the file, and two fetches of one file do not overlap. Making directories is left out.
- Sessions.WipedUsersNeverAuthenticate: generated tokens and user ids are new. The check of the blacklisted user id in `authMiddleware` is left out.
- FilesHash.SameTextIffSameFiles: md5 itself is left out, as is reading clock bounds from text; an empty and a missing multihash are the same.
- SortKeys.RecoverFindsTheSigner: keccak, signing and recovering are parameters with the one law that recovering a signature gives the wallet of its key. Characters stand for code units; a key named `__proto__` is not treated specially.
- Heartbeat.Response.HandleWithHeartbeat: `next()` does not throw, and a thrown error becomes an object by `errorResponse` outside the model.
- Segments.DurationReadsBack: parseFloat is modelled on unsigned decimals without leading blanks or exponents, and the nearest double is the decimal itself; durations are printed with six decimals.
- TruncateBull.TruncateIsIdempotent: text, arrays and objects have fewer than 2^53 units, as section 6.1.4 of ECMA-262 says of text; data is JSON, without dates, functions or `__proto__` keys.

Not part of this model:

- `_callFuncOnAllCidsPaginated`: which windows exist depends on collation and a helper; the migration is proved for one arbitrary window.
- `_migrateFilesWithCustomStoragePaths`: its loop flag starts undefined, so its body never runs.
- `clearWriteLocks`, `ttl` and other startup or reporting helpers of `redis.js`.
- Express, Redis, Sequelize, Postgres, axios, BullMQ and ffmpeg internals; logging, tracing, metrics and real durations.
- Queues, routes, rate limits, configuration, other services of the repository and its contracts: they would only add easy members.
