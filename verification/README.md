# Replication of a SQLite write-ahead log, in Dafny

The system copies a SQLite write-ahead log (WAL) into numbered LTX files, uploads them to level 0 of
a replica, compacts them through levels, prunes them, and rebuilds the database from what is left.
This project models that pipeline and proves what it is for: no committed page is lost, what is
pruned is never needed again, a restored copy is an image that the database really had, and so is a
copy that is kept up to date after every round that finishes and catches up with what was begun
before. Both are the current image as soon as everything is copied and uploaded.

`dafny verify dfyconfig.toml` checks everything.

| file | content |
|---|---|
| `Pages`, `LtxFiles` | page images, deltas, histories, net effects; LTX files, chains, the merge |
| `NearImage`, `SnapshotImage` | images that hold parts of later transactions; full snapshots, which may be ahead of their label |
| `WalScan`, `ChecksumWeights`, `WalReader`, `WalFormat`, `FrameLog` | checksum-chained frame scan, what the checksum is, the byte-level reader, a writer of WAL files that it reads back, page maps |
| `WalOverlay`, `WalSync`, `WalSyncProof`, `WalRestart`, `SyncedFiles`, `SyncDatabase` | the protocol that copies the WAL into level 0: state machine, safety over runs, the reset that leaves the WAL file in place, which pages each file holds, the object that runs it |
| `WalLink` | what the reader scans is what the protocol copies |
| `LevelStore`, `LevelStoreProof`, `LevelStoreRuns`, `ReplicaStore` | uploads, compaction, snapshots and retention: state machine, safety over runs, the object that performs the steps |
| `CompactionStep`, `RetentionReach`, `StoreLabels` | what a compaction stores, what retention leaves restorable, what is on which level |
| `RestorePlan`, `RestoreOptimal`, `TimeRestore` | the restore planner with its per-level cursors; optimality and correctness of its plans; restoring to a point in time |
| `Follow`, `GapFill`, `Follower` | follow mode, with writes that break off anywhere, inside a page too |
| `JointRun`, `WalSnapshot`, `EndToEnd` | the protocol and the store in one run: the log is the history of the store, snapshots ahead of their label, restored against live |
| `FollowLive` | restoring and then following while the database and the store go on: followed against live |
| `S3Lease`, `LeaseProgress` | the lease protocol over conditional requests: exclusion, and what acquiring, renewing and releasing achieve |
| `ResumableReader`, `DirtyBuffer` | the reconnecting reader; the write buffer of the VFS |

Assumptions, stated once:

- Listings are sorted by file name (minimum, then maximum TXID), and 1 <= minimum <= maximum; TXIDs
  do not reach 2^64 - 1, so the successor of a TXID does not wrap.
- A transaction that grows the database writes every page it adds; a commit frame is of a page
  inside the size it commits, and that size is positive.
- The LTX merge keeps the newest version of each page, drops pages beyond the final size, and refuses
  inputs with a TXID gap (`LtxFiles.Merge`).
- The WAL is reset only inside a checkpoint of the system's own, after the sync of that checkpoint,
  and every reset picks salts not used before (section 4.4 of the SQLite Database File Format
  document). The size re-check and the truncation are one step. The frames that carry the current
  salts have the right checksums.
- The header bytes 18-19 and 24-27 of page 1, which are rewritten on the way, and the lock page of
  large databases are ignored.
- For the lease: conditional requests are atomic, ETags are never reused, there is one clock, and
  each client has a fixed TTL (sections 13.1.1 and 13.1.2 of RFC 9110).

Where the code does not meet a property, with the exact condition:

- A snapshot is labelled with the last TXID copied but holds everything committed (db.go:2003-2102), so
  a restore to that TXID can give a later image. `WalSnapshot.SnapshotAheadOfLabel` is such a state;
  `SnapshotImage.SnapshotExactIff`, `WalSnapshot.SnapshotNowExactIff` and
  `WalSnapshot.SnapshotInEpochExactIff` say exactly when a snapshot is right at its label. A plan that
  reaches beyond the snapshot is exact all the same, and a plan that is a snapshot alone gives an image
  that the database had.
- A checkpoint that resets the WAL but leaves the file in place does not consult the flag that says
  whether everything was copied (db.go:1479-1496). `WalRestart.RestartLosesCommit` is a state in which a
  commit is lost that way; `WalRestart.RestartExactIff` says exactly when the next sync is right all
  the same. `WalSyncProof.EverySyncIsCurrent` covers runs with such resets: the log is right on all
  pages but those that were lost and not written since.
- The end offset that the page map reports is the end of the last commit frame exactly when that
  frame's page is inside the committed size (`WalReader.Reader.PageMap`).
- Frames are read from the offsets that are reported for them, and below the size captured at open,
  exactly when the frame size does not wrap around in 32 bits (`WalReader.ReportedIsReadIff`,
  `WalReader.BoundHoldsIffNoWrap`).
- For one page size, 2^32 - 24, which the header check admits, the frame size is 0
  (`WalReader.ZeroFrameSizeIff`). The search for salts then ends exactly if the first slot ends it
  (`WalReader.ZeroFramesStopIff`), taking the page map ends exactly if the first slot is refused or
  carries another checksum than the running one (`WalReader.ZeroFramesEndIff`), and opening at an offset
  divides by zero (`WalReader.OpenAt`).
- A file with commit size 0 does not cut the copy that follow mode keeps (replica.go:1040-1045).
  `Follow.EmptyingIsSkipped` is such a copy; writing a file is exact exactly when its commit size is
  positive or the copy is empty already (`Follow.WrittenExactIff`, `Follower.Follower.WritePages`).
- A write to a page that cannot be fetched takes the page to be missing (vfs.go:1576-1579).
  `DirtyBuffer.FailedFetchLosesBytes` is such a write; `DirtyBuffer.ReadsCleanIff` says exactly when a
  page survives any operations all the same.

## Model

| member | source | states |
|---|---|---|
| WalSyncProof.EverySyncIsCurrent | db.go:1584-1788 | in every run of commits, open transactions, backfills, syncs, checkpoints of all modes and restarts, after each sync the level-0 files replay to the database file overlaid with the committed WAL on all pages but the stale ones, and exactly if and only if those agree too; pages become stale only when an in-place reset overwrites uncopied frames |
| WalSyncProof.EverySyncIsExact | db.go:1584-1788 | in every run in which no in-place reset overwrote uncopied frames, every sync is exact, also when commits land between the sync of a TRUNCATE checkpoint and its re-check |
| WalSyncProof.NothingIsStale | db.go:1889-1954 | nothing else makes a page stale: not a truncating checkpoint, not a restart of the process |
| WalSyncProof.NoSnapshotWithinEpoch | db.go:1389-1501 | in every run, once an epoch has its first file, no later sync of that epoch asks for a snapshot |
| WalSyncProof.VerifyInEpoch | db.go:1435-1501 | within an epoch verify goes on at the end of the last file, incrementally: the last copied frame is found in that file |
| WalSyncProof.VerifyAfterReset | db.go:1394-1424 | after a reset verify goes on at the new header, and incrementally only if the log covers the image at the reset |
| WalSyncProof.SyncCopies | db.go:1584-1690 | a sync copies exactly the committed frames behind what the log covers, or all of them for a snapshot |
| WalSyncProof.SyncIsCurrent | db.go:1700-1788 | from any state that satisfies the invariant, the log after a sync has the size and all but the stale pages of the current database |
| WalSyncProof.StepKeepsInv | db.go:1875-1954 | every step, including checkpoints of all modes with commits in the window, keeps the invariant |
| WalRestart.RestartDecision | db.go:1450-1496 | after a reset that left the file in place, verify takes a snapshot exactly when at most one frame was copied or the new transaction overwrote the last copied frame |
| WalRestart.RestartThenCommits | db.go:1450-1496 | a reset step of the machine and any transactions that commit after it leave the state that a reset followed by all their frames leaves |
| WalRestart.RestartExactIff | db.go:1479-1496 | from every reachable state with nothing stale, commits in the window included: after a reset step, any number of commit steps and a sync step, the log is exact if and only if a snapshot is forced, or every page the missed frames wrote is rewritten by those commits or was unchanged |
| WalRestart.RestartLosesCommit | db.go:1479-1496 | a concrete reachable state in which such a commit is missing from the replayed log |
| SyncedFiles.TruncatedFile | db.go:1393-1424 | from every reachable state: after a truncating checkpoint, any number of commits and a sync, the new file holds the pages of the frames written since and no others if everything up to the end of the WAL had been copied by this process at the re-check and less than that was written since, and every page otherwise; it stays within the pages written if and only if that is so or they are all pages |
| SyncedFiles.RestartedFile | db.go:1426-1501 | the same after a reset that left the WAL in place: every page if at most one frame had been copied or the last copied one was overwritten, the pages written since and no others otherwise |
| SyncedFiles.ReopenedFile | db.go:1875-1907 | when the first checkpoint of a new process finds nothing to copy and truncates, the next file holds every page, whatever the process before it knew |
| SyncedFiles.EpochFile | db.go:1584-1788 | in every reachable state within an epoch, a sync writes a file with the pages of the frames behind the copied ones and no others, and none if there are none |
| SyncedFiles.InitialFile | db.go:1363-1373 | the very first file holds every page of the database |
| SyncedFiles.SuspectFile | db.go:1426-1501 | for any WAL and log whatever, reached or not: the next file holds every page if and only if the last copied frame was replaced or a frame of an unknown epoch stands before the copied ones, and the pages read from the WAL otherwise |
| SyncedFiles.FlagOfSync | db.go:1753-1788 | a sync that writes a file sets the flag exactly when the file ends where the WAL does; another one clears it only when the WAL no longer reaches the copied end |
| SyncedFiles.StaleSince | db.go:1479-1496 | in every run a page is marked stale only because an in-place reset overwrote an uncopied frame of it, and no file written since holds it |
| WalOverlay.PageMapIsRunDelta | db.go:1837-1864 | the pages that the page map selects are exactly the net effect of the committed frames |
| WalOverlay.OverlaySplit | db.go:1584-1788 | stopping at any commit and going on later has the same effect as overlaying all frames at once |
| SyncDatabase.Database.MatchLastPage | db.go:1504-1540 | the search finds the last copied frame, with equal salts and contents, if and only if the last file holds it |
| SyncDatabase.Database.DetectFullCheckpoint | db.go:1544-1572 | true if and only if salts other than the current and the known ones occur up to the first known one |
| SyncDatabase.Database.VerifyWal | db.go:1363-1501 | the decision, offset and salts of verify, and the cleared flag, as one step of the protocol; what they come to is said of the files by `SyncedFiles.TruncatedFile`, `RestartedFile`, `EpochFile` and `SuspectFile` |
| SyncDatabase.Database.WriteFromDb | db.go:1790-1835 | a snapshot holds every page, from the WAL if it is there, else from the file |
| SyncDatabase.LatestPages | db.go:1837-1864 | for every page the content of its last frame, and no other page |
| SyncDatabase.Database.Sync | db.go:1584-1788 | a sync is one step of the protocol; the log replays to the file overlaid with the committed WAL on all pages that are not stale, and exactly when none is |
| SyncDatabase.Database.Recheck | db.go:1896-1907 | a flag that survives means that everything committed is in the log, so that resetting the WAL loses nothing |
| SyncDatabase.Database.Truncate | db.go:1875-1954 | a truncating checkpoint is one step of the protocol and changes neither the log nor what readers see, commits in the window included |
| SyncDatabase.Database.Restart | db.go:1875-1954 | so is one that leaves the WAL file in place; the pages of frames it overwrites uncopied become stale |
| WalLink.ScanIsReadable | wal_reader.go:173-229 | in a WAL with right checksums a verified scan yields the frames up to the first one with other salts |
| WalLink.SourceIsScan | db.go:1584-1690 | what the protocol reads behind copied frames is what a reader resumed at their end scans |
| WalLink.PageMapIsCopied | db.go:1837-1864 | the page map of the frames read is exactly what an incremental sync writes |
| WalScan.ResumeIsScan | wal_reader.go:47-77 | resuming after k frames that a scan accepts gives the same position, running checksum and remaining frames as that scan, although the previous frame's stored checksum is trusted |
| WalScan.AcceptedFrameFixesChecksum | wal_reader.go:173-229 | a frame determines the checksum before it: no two different running checksums accept the same frame |
| WalScan.FoldInjective | wal_reader.go:330-339 | for fixed data the checksum is injective in its starting value |
| ChecksumWeights.FoldIsWeighted | wal_reader.go:330-339 | for every start (a, b) and all words w_0 .. w_(m-1), the second half is F(m) a + F(m+1) b + the sum of F(m-j) w_j modulo 2^32, with Fibonacci numbers F, and the first half is the same without the last word |
| WalReader.WalChecksum | wal_reader.go:330-339 | the loop computes the Fibonacci-weighted sums of the 32-bit words in the given byte order |
| WalReader.DecodeHeader | wal_reader.go:129-165 | magic, byte order, header checksum and version decide between the error cases and the fields, as the format says |
| WalReader.Reader.ReadHeader | wal_reader.go:115-165 | the size is captured first; then the header error, or a reader at the first frame with the header's salts and checksum |
| WalReader.Reader.ReadFrame | wal_reader.go:173-229 | one step of the scan; without a wrap no read past the size captured at open however the bytes change |
| WalReader.Open | wal_reader.go:36-43 | a reader at the first frame, or the header error |
| WalFormat.HeaderRoundTrip | wal_reader.go:115-165 | a header written field by field in either byte order reads back with all its fields and its checksum |
| WalFormat.FrameRoundTrip | wal_reader.go:173-229 | a frame written with the checksum of its first eight bytes and its page reads back, and is accepted by a reader whose checksum is the one before it |
| WalFormat.WalRoundTrip | wal_reader.go:173-229 | a file of any frames reads back: the header, then exactly these frames in order, the last of which ends at the captured size and is read |
| WalReader.OpenAt | wal_reader.go:47-77 | a reader resumed at the offset with the header's page size and byte order, or the error for a bad offset, header or previous frame, or the division by zero for frames of size 0 |
| WalReader.ResumedIsSuffix | wal_reader.go:47-77 | resumed after k frames that a scan from the header accepts, the reader yields exactly the rest of that scan |
| WalReader.ResumeMap | wal_reader.go:47-77 | opening there and taking the page map gives the map of the rest of the scan |
| WalReader.ReportedIsReadIff | wal_reader.go:84-89 | frames are read from the offsets reported for them if and only if the frame size does not wrap |
| WalReader.ZeroFrameSizeIff | wal_reader.go:178-179 | the frame size is 0 if and only if the page size is 2^32 - 24 |
| WalScan.AcceptedAgainIff | wal_reader.go:209-218 | a frame that was accepted is accepted again if and only if the checksum stored with it was the running one already |
| WalReader.ZeroFramesEndIff | wal_reader.go:234-269 | with frames of size 0 the page map of an unchanging file comes to an end if and only if the first slot is refused or its checksum is not the running one |
| WalReader.ZeroFramesStopIff | wal_reader.go:300-327 | with frames of size 0 the search for salts ends if and only if there is no first slot or its salt is the one looked for |
| WalReader.MappedIsScan | wal_reader.go:234-269 | what the page map of an unchanging file reads is the scan of its slots, unless frames have size 0 |
| WalReader.Reader.PageMap | wal_reader.go:234-297 | terminates, and below the captured size unless the frame size wraps, even if the bytes change, or is stuck when frames have size 0; for an unchanging file it is the page map of all frames read up to the first refusal, and stuck exactly when there is none; the end offset is that of the last commit if and only if the commit frame's page is inside the committed size |
| WalReader.Reader.FrameSaltsUntil | wal_reader.go:300-327 | stays below the captured size unless the frame size wraps; for an unchanging file the salts up to and including the first match, or stuck at the first slot when frames have size 0 |
| WalReader.BoundHoldsIffNoWrap | wal_reader.go:173-185 | a frame that passes the bound check ends below the captured size, for every size and frame, if and only if the frame size does not wrap in 32 bits |
| FrameLog.PageMapIsUnique | wal_reader.go:234-297 | the page map is determined: each page within the final size to its last frame at or before the last commit, nothing else |
| FrameLog.PageMapEndsAtCommit | wal_reader.go:283-294 | the end of the map is the end of the last commit frame if and only if that frame's page is inside the committed size |
| FrameLog.PageMapsCompose | wal_reader.go:234-297 | the maps of a prefix that ends at a commit and of the suffix compose to the map of the whole if and only if the suffix rewrites every page that an earlier shrink had cut off and that is back inside the final size |
| FrameLog.TrackedPageMap | wal_reader.go:238-281 | the two maps of the loop, one for the open transaction, give the page map of all frames read |
| LtxFiles.MergeOfChain | compactor.go:200-221 | merging a chain of faithful files gives the net effect of everything they cover together, with any overlaps and any shrinking and regrowing |
| LevelStoreRuns.EveryFileIsFaithful | compactor.go:126-221 | in every run each file [a,b] of a compaction level has exactly the net page effect of transactions a..b |
| LevelStoreRuns.EverySnapshotIsNear | db.go:2003-2102 | in every run each snapshot differs from the image at its label only in what the next TXID writes, and not at all when nothing is uncopied |
| LevelStoreRuns.SnapshotWasLive | db.go:2127-2146 | in every run each snapshot is the database as it was when its label was the last TXID copied |
| SnapshotImage.SnapshotExactIff | db.go:2003-2102 | a snapshot is exact at its label if and only if the uncopied transactions change neither the size nor any page |
| SnapshotImage.RestoreFromSnapshot | replica.go:796-811 | merged or applied one by one, a snapshot and at least one file that extends it give exactly the image after the last transaction, however far the snapshot was ahead |
| SnapshotImage.SnapshotAfterSync | db.go:1584-1788 | copying what was uncopied leaves every snapshot close to its label |
| WalSnapshot.SnapshotAheadOfLabel | db.go:2003-2102 | a reachable state, one commit behind the last sync: the snapshot holds it, the log at the snapshot's label does not |
| WalSnapshot.SnapshotInEpochExactIff | db.go:2003-2102 | within an epoch a snapshot is exact at its label if and only if the frames behind the copied ones change nothing; it is when all are copied |
| WalSnapshot.SnapshotNowExactIff | db.go:2003-2102 | the same in every state that the protocol and the store reach together, in terms of the uncopied transactions |
| LevelStoreRuns.LatestIsRestorable | replica.go:1571-1687 | after any interleaving of commits, copies, uploads, compactions, snapshots and single retention passes with any timestamps, the untargeted plan succeeds and ends at the highest stored TXID; it restores exactly that image, or what the snapshot holds when it is a snapshot alone, which is exact too when nothing is uncopied |
| LevelStoreRuns.UploadsGoOn | replica.go:164-246 | in every run remote level 0 stays one gap-free range that is never emptied or shortened at its end, and the next file to upload is still on the local disk |
| LevelStoreRuns.CacheIsFresh | db.go:2448-2464 | in every run the remembered newest file of a level equals the newest of a fresh listing |
| LevelStoreRuns.StepKeepsInv | store.go:745-823 | every step of the store keeps the invariant behind these results |
| LevelStoreProof.LatestPlanSucceeds | replica.go:1668-1687 | for every store of the invariant's shape the untargeted plan is no error and reaches the highest stored TXID |
| LevelStoreProof.CompactedFile | compactor.go:126-221 | what compaction writes starts right after the destination's newest file, ends with the source level and is faithful |
| LevelStoreProof.L0KeptIsSuffix | compactor.go:418-446 | level-0 retention leaves a non-empty end of the level that starts no later than level 1 ends |
| LevelStoreProof.ReachKeptIsSuffix | compactor.go:344-367 | retention by TXID leaves the end of a level, its last file included, and cuts no further than the TXID |
| LevelStoreProof.FreshKeptIsSubset | compactor.go:289-318 | snapshot retention keeps the latest snapshot and only drops older ones |
| RetentionReach.MinFreshIsLowest | compactor.go:299-312 | the TXID that the snapshot pass returns is the label of a snapshot made at or after the time, no other such snapshot has a lower one, and it is 0 if and only if there is none |
| RetentionReach.CascadeLosesNothing | store.go:803-823 | a TXID at or above some fresh snapshot is reached by a gap-free chain of compaction files and fresh snapshots after the cascade if and only if it was before |
| RetentionReach.PassLosesNothing | compactor.go:344-389 | so is it before and after the pass over one level at any later time, as long as a snapshot at or above the remembered TXID is stored |
| RetentionReach.ReachKeptIff | compactor.go:353-369 | retention by TXID keeps a file if and only if it reaches the TXID or is the last one |
| RetentionReach.FreshKeptIff | compactor.go:299-318 | snapshot retention keeps a file if and only if it was made at or after the time or is the last one |
| RetentionReach.L0KeptIff | compactor.go:418-446 | level-0 retention removes a file if and only if it and all before it are old, level 1 covers it and it is not the last one |
| StoreLabels.LocalFollowsRemote | compactor.go:448-477 | in every reachable store level-0 retention deletes a local file if and only if it deletes the copy on the replica |
| StoreLabels.EveryFileHasItsLevel | compactor.go:200-221 | in every run every file carries the number of the level it is stored on |
| CompactionStep.CompactionStores | compactor.go:116-221 | in every reachable store a compaction appends one file, with the net effect of everything of the source level that starts behind the destination, if and only if there is such a file and no gap behind it; otherwise it changes no level |
| CompactionStep.LevelOneCatchesUp | compactor.go:116-221 | in every reachable store a compaction into level 1 leaves it ending where level 0 ends |
| LevelStoreRuns.SnapshotRetentionKeepsInv | compactor.go:289-340 | the pass over the snapshots keeps the invariant with any timestamp |
| LevelStoreRuns.LevelRetentionKeepsInv | compactor.go:344-389 | the pass over one level keeps the invariant with a TXID remembered from any earlier snapshot pass, whatever happened in between |
| ReplicaStore.MarkExpired | compactor.go:418-446 | deleting what the loop marks leaves exactly the level-0 files that retention keeps |
| ReplicaStore.MarkOld | compactor.go:299-320 | deleting what the loop marks leaves exactly the fresh snapshots and the last one; the TXID returned is the label of a snapshot made at or after the time, no other such snapshot has a lower one, and it is 0 if and only if there is none |
| ReplicaStore.MarkByTXID | compactor.go:353-369 | deleting what the loop marks leaves exactly the files that reach the TXID and the last one |
| ReplicaStore.NewestListed | compactor.go:99-105 | the first of the files of a listing with the highest TXID, if there is any file |
| ReplicaStore.Sources | compactor.go:132-156 | the source files after the destination's newest, with their lowest and highest TXID |
| ReplicaStore.Replica.MaxLtxFileInfo | db.go:2448-2464 | cache hit or listing, the answer is the level's last file |
| ReplicaStore.Replica.Compact | compactor.go:116-243 | one compaction step of the store, from the cache or a listing; nothing is written when there is nothing to merge |
| ReplicaStore.Replica.EnforceL0Retention | compactor.go:393-477 | one level-0 retention step; the upload position stays where it is |
| ReplicaStore.Replica.LocalSync | db.go:1753-1788 | one copy step; the copied history is then the live database |
| ReplicaStore.Replica.Snapshot | db.go:2127-2146 | one snapshot step; the stored file holds the live database under the last TXID copied |
| ReplicaStore.Replica.PruneSnapshots | compactor.go:289-340 | one pass over the snapshots; the TXID it returns is the lowest label of a fresh one, and 0 if and only if there is none |
| ReplicaStore.Replica.PruneLevel | compactor.go:344-389 | one pass over a level with a TXID returned earlier |
| ReplicaStore.Replica.EnforceSnapshotRetention | store.go:803-823 | without anything in between, the cascade leaves the fresh snapshots and, on each level, what reaches the lowest of them; at or above any fresh snapshot, chains of compaction files and fresh snapshots from TXID 1 end at exactly the same TXIDs as before |
| ReplicaStore.Replica.Sync | replica.go:164-211 | under any upload failures, reported or not, level 0 only grows at its end; without a failure everything copied is uploaded |
| RestorePlan.CalcRestorePlan | replica.go:1571-1687 | the plan is the chosen snapshot followed by the picks of a greedy interval cover over the files of all levels at once, although each cursor keeps one candidate; both targets, a gap and a missing TXID are reported exactly when they occur |
| RestorePlan.LevelCursor.Refresh | replica.go:1700-1738 | the one candidate kept is as good as any admitted file read so far, and nothing unread can extend the plan |
| RestorePlan.LevelCursor.EnsureCurrent | replica.go:1740-1754 | the next file is under the cursor or the listing is exhausted |
| RestorePlan.SnapshotIsListed | replica.go:1579-1603 | the chosen snapshot is admitted by the target and the last such in listing order |
| RestoreOptimal.GreedyIsOptimal | replica.go:1633-1666 | no chain from the chosen snapshot reaches further than the plan, and none that reaches as far uses fewer files |
| RestoreOptimal.PlanReachesFurthest | replica.go:1579-1666 | no gap-free chain of stored files from TXID 1 within the target ends beyond the plan |
| RestoreOptimal.TargetFoundIffReachable | replica.go:1679-1687 | a target TXID is found if and only if some gap-free chain of stored files from TXID 1 ends at it, and then the plan ends there |
| RestoreOptimal.PicksArePreferred | replica.go:1756-1767 | every file of a plan behind its snapshot is preferred over every file that could have been taken there: it reaches further, or starts earlier, or is on a higher level, or is no younger, in this order |
| RestoreOptimal.LatestResultIff | replica.go:1668-1687 | without a target a plan is returned if and only if there is one and no stored file ends beyond it; the error is otherwise a gap at the end of the plan, or that there is nothing at all |
| TimeRestore.PlanForTime | replica.go:1579-1603 | a plan for a time is a gap-free chain of stored files all created before it, and no such chain ends beyond the plan |
| TimeRestore.RestoreToTime | replica.go:1571-1687 | in every run of the store in which files are created one after the other, a restore to any time uses files that were stored at that time and still are, and no chain of such files ends beyond it |
| TimeRestore.RestoreToTimeEnds | replica.go:1571-1687 | when nothing stored at that time has been deleted since, the restore succeeds if anything was stored and ends at the highest TXID that was stored then |
| RestoreOptimal.PlanRestoresImage | replica.go:796-811 | the plan, merged or applied file by file to an empty database, gives exactly the image after its last transaction, unless it is a snapshot alone: then what that holds |
| NearImage.FullApply | replica.go:1020-1051 | a file applied in full moves the copy on, and makes it exact once no file with a higher TXID had been begun |
| NearImage.PartApply | replica.go:1020-1051 | a file applied in part, in any order, with any pages written half-way and truncation done or not, leaves a copy from which the old TXID is still a safe starting point |
| NearImage.NearEarlier | replica.go:895-904 | starting again from an older saved TXID is safe |
| NearImage.NearOfPrefix | replica.go:920-931 | transactions added at the source do not disturb what the copy holds |
| Follow.WrittenAll | replica.go:1020-1051 | writing the pages in ascending order and then setting the size is applying the delta |
| Follow.WrittenExactIff | replica.go:1040-1045 | a file written without a failure is applied exactly if and only if its commit size is positive or the copy was empty |
| Follow.EmptyingIsSkipped | replica.go:1040-1045 | a copy of one page that survives a transaction which leaves no page |
| Follow.BrokenIsPart | replica.go:1035-1037 | breaking off at any page, with anything left in it, is a partial application |
| Follower.Follower.WritePages | replica.go:1020-1051 | the page loop with a break-off at or inside any page; without one the delta is applied, exactly if and only if its commit size is positive or the copy was empty |
| Follower.Follower.Bridge | replica.go:1056-1116 | gap filling goes through all compaction levels: nothing happens if none has a file that goes on, otherwise the lowest that does takes the copy on until the gap is bridged or it has no further file; it never goes back, and reaches the end of the gap when level 1 covers it |
| GapFill.FillsAll | replica.go:1076-1102 | going through a sorted listing goes on if and only if some file of it does, and stops only at the end of the gap or when no file goes on any more |
| GapFill.LevelsFill | replica.go:1059-1115 | the lowest level with a file that goes on decides, and no level below it had one |
| Follower.Follower.ApplyNew | replica.go:920-991 | a finished round goes on if and only if some file does, of level 0 or of any compaction level; it stops short of the end of level 0 only in front of a gap, and when levels 0 and 1 hold everything after the start it reaches that end; it never goes back |
| Follower.Follower.Poll | replica.go:889-914 | after any failures before, from an exact or merely close copy, a round that ends at or past everything ever begun leaves exactly the image of the recorded TXID, unless that is empty; a failed round or record keeps the old TXID and stays repairable; a round that succeeds records a new TXID if and only if some file goes on from the old one |
| JointRun.RunIsCoupled | db.go:1584-1788 | in every run of the protocol and the store together, the log is the store's history, and history plus uncopied transactions is the live database |
| JointRun.SnapshotIsLive | db.go:2003-2102 | the snapshot that is written is that of the live image |
| JointRun.SyncIsCopy | db.go:1584-1788 | the file that a sync writes leads to the live image and holds every page committed since the last one |
| FollowLive.FollowRound | replica.go:889-914 | in every joint run, a finished round that ends at or past everything ever begun leaves an image that a reader of the database saw; with everything copied and uploaded, the next transaction on level 0 or 1 and a database that is not empty, it is what a reader sees now |
| FollowLive.FollowAlong | replica.go:889-914 | any number of rounds with any failures, while the database and the store go on: the recorded TXID never goes back, the copy stays repairable, and the copy is the live database after a last round without failure that finds the same |
| FollowLive.RestoreAndFollow | replica.go:732-850 | the same from a restore of any target at any earlier state, snapshots ahead of their label included |
| FollowLive.HeldLater | replica.go:837-850 | a restored image stays close to the history whatever the database does, also when the file it came from is pruned |
| FollowLive.JointIsNeverEmpty | db.go:1584-1788 | in a joint run from a database with at least one page no file of the log has commit size 0 |
| EndToEnd.LogIsHistory | db.go:1584-1788 | in every such run the log is a valid transaction history |
| EndToEnd.LogIsNeverEmpty | db.go:1584-1788 | when the database starts with at least one page, no file of the log has commit size 0, as follow mode needs |
| EndToEnd.RestoredIsLive | replica.go:732-811 | in every such run, whenever everything committed is copied and uploaded, restoring the latest state gives what a reader of the live database sees |
| EndToEnd.RestoredWasSeen | replica.go:732-811 | in every such run and for every target, what a plan restores is an image that a reader of the database saw at some point |
| EndToEnd.RestoredIsNear | replica.go:837-850 | what a plan restores, a snapshot ahead of its label included, is a safe place to start following from as soon as a later TXID is copied |
| EndToEnd.StoreContinues | replica.go:940-965 | in a reachable store a follower can go on as long as level 0 or level 1 still holds its next transaction |
| S3Lease.AtMostOneHolder | s3/leaser.go:109-219 | in no state of any run, with late, repeated and lost requests and lost answers, do two clients hold unexpired leases |
| S3Lease.GenerationRises | s3/leaser.go:122-131 | while the lease is not released its generation never falls, and it rises whenever the lease changes hands |
| S3Lease.StoredStep | s3/leaser.go:250-285 | one step leaves the stored lease alone, extends it for its owner, or replaces it after it ran out |
| S3Lease.OnlyReleaseRemoves | s3/leaser.go:190-219 | the lease disappears only when its own writer releases exactly that version, and then nobody holds one |
| S3Lease.RefusedWhileHolding | s3/leaser.go:157-188 | a renewal refused before the lease ran out means an earlier renewal of the same client took effect, never that someone else has the lease |
| LeaseProgress.RenewalIsHeld | s3/leaser.go:157-188 | in every run, a renewal that is executed while the renewed version is stored, and whose answer arrives, makes its client the holder exactly up to its time to live counted from when it was sent, whatever the others do |
| LeaseProgress.AcquisitionIsHeld | s3/leaser.go:109-155 | so does an acquisition sent after reading no lease or one that had run out, if nothing else was written before it is executed |
| LeaseProgress.AcquireSends | s3/leaser.go:109-131 | acquiring asks for generation 1 when no lease was read and for the next generation when the one read had run out, and sends nothing when it had not |
| LeaseProgress.RefusedIff | s3/leaser.go:109-120 | in every run, acquiring is refused if and only if the lease stored at the read has not run out when the client acts on it; the refusal names the owner and the expiry of that lease and nothing is sent |
| LeaseProgress.AnswerWaits | s3/leaser.go:250-285 | in every run, the answer to a write that took effect can arrive at any later time |
| LeaseProgress.ReleaseMakesRoom | s3/leaser.go:190-219 | a release that is executed while the released version is stored removes it, and its client holds nothing from the moment it is sent |
| S3Lease.StepKeepsInv | s3/leaser.go:109-285 | every step of acquire, renew and release keeps the invariant |
| ResumableReader.Reader.Read | internal/resumable_reader.go:64-118 | the connection stays in step with the reader's offset, reopened or not; so for any schedule of short reads, errors and early ends the bytes delivered are a prefix in order. The first attempt that is not dropped decides: its bytes are the result, end of file is reported if and only if its stream ended there and the object is complete as far as its size is known, a failed reopening if and only if there was no connection and that attempt could not open one, and giving up if and only if four attempts were dropped |
| ResumableReader.Reader.Connect | internal/resumable_reader.go:66-74 | a new connection starts where the last one left off |
| DirtyBuffer.ReadsBack | vfs.go:1542-1598 | after any writes, truncations and syncs a page is dirty exactly when it was written since it was last clean, and reads as its base with those writes applied in order; the base is the clean page, or zeros if the first write could not fetch it |
| DirtyBuffer.SyncIsUnseen | vfs.go:1900-1967 | when no fetch fails, after any writes, truncations and syncs a page reads as it did at the start with all writes applied in order that still stand, as if nothing had been synced; what was synced survives a truncation |
| DirtyBuffer.ReadsCleanIff | vfs.go:1542-1598 | after any writes, truncations and syncs a page reads as the clean page with its writes applied if and only if it was not written, the first write fetched it, or every byte that no write covers is 0 |
| DirtyBuffer.RestIsKeptIff | vfs.go:1576-1583 | writes that start from zeros leave what they would leave on the page if and only if every byte that none of them covers is 0 |
| DirtyBuffer.CommitIsHighest | vfs.go:1585-1588 | after any writes, truncations and syncs the commit size is the highest page written since the last truncation, or the size set there, whichever is larger |
| DirtyBuffer.FailedFetchLosesBytes | vfs.go:1576-1583 | a write whose fetch fails and that loses three bytes of its page |
| DirtyBuffer.PagesAfterWrite | vfs.go:2118-2138 | overwriting or appending a slot changes that page and no other, and slots stay disjoint |
| DirtyBuffer.VfsFile.WriteAt | vfs.go:1542-1598 | one write step of the plain page map, fetch failures included; the lock page is refused; the count written |
| DirtyBuffer.VfsFile.ReadAt | vfs.go:1433-1455 | a dirty page reads back from its slot |
| DirtyBuffer.VfsFile.Truncate | vfs.go:1632-1669 | one truncation step of the plain page map |
| DirtyBuffer.SortPages | vfs.go:2009-2014 | the page numbers in strictly ascending order, all of them and no others |
| DirtyBuffer.VfsFile.Encode | vfs.go:2006-2075 | the transaction has the current commit size and holds exactly the dirty pages, in ascending order |
| DirtyBuffer.VfsFile.SyncToRemote | vfs.go:1900-1967 | a sync uploads exactly the commit size and the dirty map and empties the buffer; a failed upload changes nothing |

## Left out

- LTX encoding and decoding, encryption and compression of files: libraries; the merge enters as a contract.
- The storage clients: one abstract store with sorted listings. Listing a level and writing or deleting what follows from it is one step.
- I/O errors other than the ones named above, context cancellation, logging, metrics and timers.
- Creating a WAL where there is none, and reading a WAL without a header during a sync.
- A snapshot is one step; pages moved into the database file while it streams are not modelled.
- Resetting local state, automatic recovery and the check that the database is behind its replica: runs that rewind the local log.
- JointRun.RunIsCoupled: in the runs of protocol and store together, a reset that leaves the WAL file in place happens only when everything is copied, because otherwise the log is no history of the database; `WalSyncProof.EverySyncIsCurrent` and `WalRestart.RestartExactIff` cover the other resets.
- WalReader.Reader.PageMap: not for page sizes that are no multiple of 8, which the checksum asserts against; its content, and that of `OpenAt` and `FrameSaltsUntil`, is stated for a file that does not change while it is read. With frames of size 0 and a file that does change, it gives up as stuck where the source may still go on.
- Follower.Follower.Poll: waiting between rounds, file locking and the rewritten bytes of page 1 are not modelled. Setting the file size is one step.
- FollowLive.RestoreAndFollow: rounds count from the first state in which a later TXID than the restored one is copied, or nothing is uncopied; until then the copy may be ahead of every TXID there is.
- S3Lease.AtMostOneHolder: the remote reads and writes of the lease object are steps of a state machine, not method calls; reading the lease again to report its owner after a lost race is not modelled.
- The lease kept in a local file compares and renames in two separate steps; the exclusion result is not claimed for it.
- Retention that is switched off for the replica and then deletes local files only.
- Compaction schedules: when a level is due only decides which steps happen, and any order of steps is covered.
- The VFS beyond its write buffer: polling, page index, cache eviction, hydration, time travel. Page numbers are not limited to 32 bits.
- Restore of the older backup format, the HTTP server, the directory watcher and the command line.
