# minidb and kosong: a verified model

This project models the storage engine `packages/minidb` and the stream assembler of `packages/kosong`, and proves
what they promise over all inputs, all runs and all interleavings. `dafny verify dfyconfig.toml` checks everything.

| part | modules | what is proved |
|---|---|---|
| lock takeover | `LockProtocol`, `LockExclusion`, `LockRuns` | the file protocol as a transition system over any number of processes and instances; mutual exclusion over every run, the exact conditions on process deaths and on two `held` flags, and availability of a stale lock |
| drain gate and scheduler | `Gates`, `Maintenance` | a pause that drained keeps the tracker empty; promises settle exactly once; ids are conserved; shutdown leaves publishing tasks alone; exactly when a close does not wait |
| ordered structures | `SkipLinks`, `Ordered`, `Ranges`, `SkipLists` | the span-carrying skip list, linked in place, against the sorted list of its entries: insert, delete, bulk load, ranks, ranges |
| indexes | `ExactLists`, `CompoundIndexes`, `UniqueIndexes` | one slot per key, range answers like those of a rebuild; the batch unique check against the state after the batch |
| codecs | `Bytes`, `Crc`, `Codec`, `FrameScan`, `BatchCodec`, `Varint`, `Postings`, `PostingsFiles` | round trips, canonicity, prefix-freeness, and the scan with resynchronisation as the only tiling of the file into frames and corrupt ranges |
| windowed scan | `WindowScan`, `WindowReader` | the scanner of recovery, with its read window and candidate budget: exactly when it cuts a file as trying every position would |
| recovery | `Recovery`, `CatchUp`, `CrashRecovery` | last writer wins with expiries at any clock readings; catch-ups of a growing log are one scan; what cutting off a corrupt tail keeps, in both modes and through every window |
| compaction | `Snapshot`, `Compaction`, `CrashRecovery` | every crash point recovers to the same state, from the bytes up; the copied tail is exactly the log behind the fence; after the rotation every pointer of a live record reads the bytes it read before |
| generation build | `GenerationBuilds` | a sealed image is the live store at the seal, for every interleaving of writes, drains and walk steps, and every placement is that of the record last fed |
| stream assembly | `StreamAssembly` | the assembled message as a function of the stream; interleaving of argument deltas is irrelevant |

## How the model is built

- A function that updates fields step by step is a method of a class with those fields (`OpTracker`,
  `MaintenanceScheduler`, `SkipList`, `CompoundEntry`, `SecondaryIndex`, `Store`, `Files`, `GenerationBuild`); loops
  stay loops. The lock protocol is a state machine whose steps are single file operations, because what matters
  there is what other processes do between two of them.
- Event-loop yields, timers and I/O results are nondeterministic choices: `Writers`, `Others`, the number of bytes a
  read or write moves, the level of a new skip-list node, readings of the clock (never decreasing).
- Keys and values are byte strings, a JavaScript string key being its bytes; comparators, the placement of a document
  in a compound index and the notion of a blank character are parameters.
- A function value (`Reader`, `Source`, `FrontReader`, `Coder`, `OpReader`, `BodyReader`, `Encoder`) stands for one layer in
  the proofs about the layer above; the last theorem of each chain is about the concrete bytes.

## Where the code is weaker than its description

- **Lock.** "At most one `held`" fails in one place: `release` unlinks the file before it clears the flag
  (`LockRuns.HeldFlagsOverlap` is a run from the start). `LockRuns.HeldFlagsExactly` gives the exact condition. The
  claim that is true at every step is about owners: an instance that has linked the file or holds the flag and has
  not landed the unlink of its release (`LockExclusion.MutualExclusion`). Exclusion also depends on one kind of
  death: if the process whose line is in the lock file dies while another contender is between finding the lock its
  own and its verdict, both can end up owners. `LockRuns.HarmfulExactly` shows that this is the exact condition,
  `LockRuns.HarmfulReachable` that such deaths can happen.
- **Lock, conditions.** `LockExclusion.MutualExclusion` assumes three things that the code does not enforce: the
  listing of watch files succeeds (lockfile.ts:234 takes a failed one for an empty directory), no file operation
  between the rename and the verdict throws (the acquire would end with its line in the file and without an owner),
  and watch names are distinct (the counter in them is per module instance, so worker threads of one process, which
  share its pid, could collide).
- **Scheduler.** The description of `close` says that it resolves once every task settled; a later call returns at
  once. `Maintenance.CloseTooEarlyExactly` says when a call does not wait for unsettled tasks, and
  `Maintenance.SecondCloseTooEarly` is a run.
- **File scanner.** Recovery reads a file through a window of 4 MiB and gives up after 65536 candidates. Its search for
  magic goes on from the last byte of a window without refilling, so a frame whose magic straddles the end of a
  window is not tried. `WindowScan.ScanExact` gives the exact condition under which it finds what trying every
  position finds. `CrashRecovery.EdgeFrameDestroyed` is the failing input, for every window and budget: the only frame of a
  log is reported as corrupt, and truncation cuts it off. Files of whole frames are scanned right through every
  window (`CrashRecovery.LogFile`), and so are files with nothing valid behind their first corruption
  (`CrashRecovery.TornTailExact`).
- **Skip list.** The spans of links without a forward node mean nothing: `bulkLoad` stores 0 there, `insert` the
  remaining count. The invariant speaks of links with a forward node only. `insert` does not reject a duplicate.
- **Range bounds.** With two bounds on the side where a scan starts, one of them can be ignored or overrun;
  `Ranges.HonouredExactly` gives the exact condition for all bounds, `Ranges.AgreeingHonoured` its closed form.
- **Secondary index.** Inserting a document whose key is still indexed leaves phantom entries unless every old term
  is among the new ones (`UniqueIndexes.InsertWithoutRemove`).
- **Generation build.** `expire` reads the record before its commit waits, writes that record whatever has happened to
  the key since, and does not tell the compound placements. If the key was set again in between, the seal holds the
  stale record in the place of the newer one (`GenerationBuilds.StaleExpiry`); if it was deleted or reaped, the key is
  back and may be placed nowhere (`GenerationBuilds.RevivedExpiry`). `GenerationBuild.Build` says for every key where
  it stands at the seal, and so exactly which keys are well placed.

## Model

| member | source | states |
|---|---|---|
| LockExclusion.InitInv | packages/minidb/src/lockfile.ts:110-120 | any lock file (absent, live, stale, legacy, garbage) and any leftover watch files are a safe start |
| LockExclusion.StepInv | packages/minidb/src/lockfile.ts:114-347 | every step of acquire, renew and release by any instance, and every harmless death, keeps the invariant: an owner's line is in the file and nobody is between gate check and verdict |
| LockExclusion.GateInv | packages/minidb/src/lockfile.ts:156-165 | the gate re-inspection lets a contender through only when nobody owns the lock |
| LockExclusion.ReplaceInv | packages/minidb/src/lockfile.ts:166-168 | renaming the bid over the lock file keeps the invariant however many contenders race |
| LockExclusion.PendingKept | packages/minidb/src/lockfile.ts:231-249 | the listing of watches never crosses off a live contender that has passed the gate |
| LockExclusion.WinInv | packages/minidb/src/lockfile.ts:194-206 | "mine, then no live foreign watch" leaves the winner as the only contender past the gate |
| LockExclusion.MutualExclusion | packages/minidb/src/lockfile.ts:110-347 | over every run without a harmful death, at most one live instance is an owner |
| LockRuns.Drain | packages/minidb/src/lockfile.ts:231-249 | a listing without live foreign watches is worked off to the end, reaping dead registrations |
| LockRuns.Approach | packages/minidb/src/lockfile.ts:119-165 | a new process that finds a stale lock reaches the rename |
| LockRuns.Prevail | packages/minidb/src/lockfile.ts:166-206 | past the gate, a contender beside which no live foreign process is registered wins |
| LockRuns.SoloTakeover | packages/minidb/src/lockfile.ts:110-210 | a stale lock with no live foreign registration beside it is taken over by one acquire |
| LockRuns.WinAlone | packages/minidb/src/lockfile.ts:194-210 | a deciding contender whose listing holds no live foreign watch wins, whoever's line is in the file |
| LockRuns.Retire | packages/minidb/src/lockfile.ts:127-249 | with the owner of the line dead, every acquire beside a deciding contender can be run to its end, and nothing but its phase and its watch changes |
| LockRuns.Isolate | packages/minidb/src/lockfile.ts:194-249 | a deciding contender can be left alone, whatever other instances of its process are at |
| LockRuns.HarmfulDeathBreaks | packages/minidb/src/lockfile.ts:194-206 | after a harmful death the run can go on to two live owners |
| LockRuns.HarmfulExactly | packages/minidb/src/lockfile.ts:194-206 | a death leaves every continuation exclusive if and only if it is not harmful |
| LockRuns.HarmfulReachable | packages/minidb/src/lockfile.ts:152-206 | two racers on a stale lock can reach a state in which one death is harmful |
| LockRuns.HeldFlagsOverlap | packages/minidb/src/lockfile.ts:252-347 | from the start, a run to two live flags: a release is between its unlink and clearing its flag when another acquire succeeds |
| LockRuns.HeldFlagsExplained | packages/minidb/src/lockfile.ts:336-347 | of two live instances with the flag, one has landed its unlink |
| LockRuns.HeldFlagsExactly | packages/minidb/src/lockfile.ts:330-347 | no two live flags are set if and only if no live instance whose unlink has landed stands beside another live instance with the flag |
| Gates.OpTracker.constructor | packages/minidb/src/op-tracker.ts:57-63 | a new tracker is open and idle |
| Gates.OpTracker.Enter | packages/minidb/src/op-tracker.ts:77-81 | an op is registered exactly when the gate is open |
| Gates.OpTracker.Leave | packages/minidb/src/op-tracker.ts:84-92 | an unmatched leave is an error and changes nothing; the last leave resolves every waiter |
| Gates.OpTracker.WhenIdle | packages/minidb/src/op-tracker.ts:95-98 | resolved at once on an idle tracker, otherwise a new waiter |
| Gates.OpTracker.Pause | packages/minidb/src/op-tracker.ts:105-109 | closes the gate at the call and hands out the drain promise |
| Gates.OpTracker.Resume | packages/minidb/src/op-tracker.ts:113-117 | releases one pause; nothing after close |
| Gates.OpTracker.Close | packages/minidb/src/op-tracker.ts:121-128 | terminal and shared: every call returns the same promise |
| Gates.DoSound | packages/minidb/src/op-tracker.ts:77-128 | every use keeps the guarantees, and no resolved promise is taken back |
| Gates.RunSound | packages/minidb/src/op-tracker.ts:77-128 | over every run with matched resumes the gate is open exactly when not closed and no pause is outstanding, a drained pause keeps the count at 0, nobody waits on an idle tracker, close is terminal |
| Gates.TrackerGuarantees | packages/minidb/src/op-tracker.ts:57-129 | the same from a new tracker |
| Maintenance.MaintenanceScheduler.Pump | packages/minidb/src/maintenance.ts:220-226 | the oldest queued task starts if none runs |
| Maintenance.MaintenanceScheduler.Submit | packages/minidb/src/maintenance.ts:185-213 | closed, deduplicated, refused by a full queue, or a task of its own, in that order |
| Maintenance.MaintenanceScheduler.Finish | packages/minidb/src/maintenance.ts:240-247 | the promise settles, the tracker entry is released and the next task starts in one step |
| Maintenance.MaintenanceScheduler.Record | packages/minidb/src/maintenance.ts:272-286 | the history keeps the newest sixteen entries |
| Maintenance.MaintenanceScheduler.MarkPublishing | packages/minidb/src/maintenance.ts:234-239 | only a running task becomes publishing |
| Maintenance.MaintenanceScheduler.Deadline | packages/minidb/src/maintenance.ts:207-210 | a deadline aborts its task and no other |
| Maintenance.MaintenanceScheduler.Close | packages/minidb/src/maintenance.ts:295-310 | cancels the queue, aborts an unpublished task, closes the tracker; the first call yields the promise of the drain, a later call nothing to wait for |
| Maintenance.SubmitSound | packages/minidb/src/maintenance.ts:164-214 | a submission keeps all guarantees |
| Maintenance.FinishSound | packages/minidb/src/maintenance.ts:272-286 | so does the end of a task |
| Maintenance.ShutdownSound | packages/minidb/src/maintenance.ts:295-310 | so does close, and no settled promise is touched |
| Maintenance.NextSound | packages/minidb/src/maintenance.ts:164-310 | so does every event |
| Maintenance.SchedulerSound | packages/minidb/src/maintenance.ts:112-311 | over every run: one task runs, kinds are pairwise distinct, a non-empty queue has a running task, the tracker counts the unsettled tasks, every id names exactly one unsettled task or settled promise |
| Maintenance.SettledAtMostOnce | packages/minidb/src/maintenance.ts:272-286 | no promise settles twice in any run |
| Maintenance.BackpressureNeedsTinyQueue | packages/minidb/src/maintenance.ts:98-101 | with three kinds only a limit below two can refuse a submission |
| Maintenance.DefaultNeverBackpressures | packages/minidb/src/maintenance.ts:131-131 | the default limit never refuses |
| Maintenance.ShutdownGuarantees | packages/minidb/src/maintenance.ts:288-310 | close cancels everything queued, leaves a publishing task alone and aborts any other |
| Maintenance.DrainedMeansSettled | packages/minidb/src/maintenance.ts:288-310 | once the drain promise of close resolves, every promise ever handed out has settled exactly once |
| Maintenance.CloseTooEarlyExactly | packages/minidb/src/maintenance.ts:288-310 | a close resolves at once although tasks are unsettled if and only if it is a later call and tasks are unsettled by then; the first call resolves at once exactly if nothing is running |
| Maintenance.SecondCloseTooEarly | packages/minidb/src/maintenance.ts:295-296 | a run to such a call: submit, close, close |
| SkipLinks.InsertLinked | packages/minidb/src/skiplist.ts:215-222 | the links written by an insertion carry exact distances on every level |
| SkipLinks.RemoveLinked | packages/minidb/src/skiplist.ts:231-239 | so do those written by a removal |
| SkipLinks.InsertStands | packages/minidb/src/skiplist.ts:205-222 | a row with a node linked in is again a standing row, and the top level stays in use |
| SkipLinks.RemoveStands | packages/minidb/src/skiplist.ts:231-239 | a row with a node taken out is again a standing row |
| SkipLinks.AppendStands | packages/minidb/src/skiplist.ts:105-112 | linking a node behind the last one of each of its levels keeps the row standing |
| SkipLinks.LowerStands | packages/minidb/src/skiplist.ts:242-242 | a top level the header does not use can be given up |
| Ordered.InsertKeepsSorted | packages/minidb/src/skiplist.ts:183-203 | the insertion point keeps the list sorted and adds exactly the new entry |
| Ordered.DeleteExact | packages/minidb/src/skiplist.ts:246-264 | deletion removes exactly one equal entry, if there is one |
| Ordered.DeleteUndoesInsert | packages/minidb/src/skiplist.ts:188-264 | deleting what was just inserted restores the list |
| Ordered.RankFound | packages/minidb/src/skiplist.ts:281-296 | a rank is reported exactly for entries that are there, and an equal entry stands at it |
| Ordered.RanksInverse | packages/minidb/src/skiplist.ts:281-314 | on distinct entries the rank of the entry at rank i is i |
| Ordered.DedupedExact | packages/minidb/src/skiplist.ts:86-97 | skipping repetitions of the previous entry leaves a sorted list without duplicates that covers all entries |
| SkipLists.SkipList.constructor | packages/minidb/src/skiplist.ts:67-71 | an empty list is valid |
| SkipLists.SkipList.Walk | packages/minidb/src/skiplist.ts:196-201 | walking right on one level ends at the last tower before the target, with its exact rank |
| SkipLists.SkipList.FindPredecessors | packages/minidb/src/skiplist.ts:194-203 | the predecessors on all levels and their ranks |
| SkipLists.SkipList.RaiseLevel | packages/minidb/src/skiplist.ts:205-213 | new levels start at the header |
| SkipLists.SkipList.OpenLevels | packages/minidb/src/skiplist.ts:205-213 | opening levels keeps the row standing and the predecessors right |
| SkipLists.SkipList.LinkIn | packages/minidb/src/skiplist.ts:216-221 | the forward links and spans of the new node and of its predecessors |
| SkipLists.SkipList.PassOver | packages/minidb/src/skiplist.ts:222-222 | links that pass over the new node grow by one |
| SkipLists.SkipList.LinkBack | packages/minidb/src/skiplist.ts:224-227 | backward links, tail and length after an insertion |
| SkipLists.SkipList.Insert | packages/minidb/src/skiplist.ts:188-229 | the list stays valid and its entries are the old ones with the new one at its sorted place |
| SkipLists.SkipList.UnlinkLevels | packages/minidb/src/skiplist.ts:232-239 | the predecessors' links bypass the node |
| SkipLists.SkipList.CutBack | packages/minidb/src/skiplist.ts:240-241 | backward link of the successor, or the tail, after a removal |
| SkipLists.SkipList.Shrink | packages/minidb/src/skiplist.ts:242-242 | unused top levels are given up |
| SkipLists.SkipList.DeleteNode | packages/minidb/src/skiplist.ts:231-244 | everything but the removed node stays in place and valid |
| SkipLists.SkipList.Delete | packages/minidb/src/skiplist.ts:246-264 | the list stays valid, one equal entry goes if there is one, and the answer says so |
| SkipLists.SkipList.LowerBound | packages/minidb/src/skiplist.ts:267-279 | the first node at or strictly beyond the bound |
| SkipLists.SkipList.GetRank | packages/minidb/src/skiplist.ts:282-296 | the rank added up from spans is the position in the sorted list |
| SkipLists.SkipList.GetByRank | packages/minidb/src/skiplist.ts:299-314 | the entry found by adding up spans is the one at that position |
| SkipLists.SkipList.Stride | packages/minidb/src/skiplist.ts:304-312 | striding on one level never overshoots, and on level 0 it arrives |
| SkipLists.SkipList.ToArray | packages/minidb/src/skiplist.ts:410-418 | all entries in order |
| SkipLists.SkipList.Forward | packages/minidb/src/skiplist.ts:350-360 | a forward page up to the upper bounds |
| SkipLists.SkipList.Backward | packages/minidb/src/skiplist.ts:333-343 | a backward page down to the lower bounds |
| SkipLists.SkipList.LastReached | packages/minidb/src/skiplist.ts:322-332 | where a reverse scan starts |
| SkipLists.SkipList.Range | packages/minidb/src/skiplist.ts:317-361 | the sorted entries within the bounds, reversed if asked, without the offset, up to the count |
| SkipLists.SkipList.MakeNodes | packages/minidb/src/skiplist.ts:86-97 | one node per entry that does not repeat its predecessor |
| SkipLists.SkipList.LinkLast | packages/minidb/src/skiplist.ts:105-112 | the links of one node more while bulk loading |
| SkipLists.SkipList.CloseLevels | packages/minidb/src/skiplist.ts:115-120 | the closing spans disturb no link with a forward node |
| SkipLists.SkipList.BulkLoad | packages/minidb/src/skiplist.ts:82-124 | a valid list of exactly the sorted entries without repetitions, so every later operation applies |
| Ranges.PageSlices | packages/minidb/src/skiplist.ts:318-319 | offset and count take a slice, clamped at both ends |
| Ranges.FilterWindow | packages/minidb/src/skiplist.ts:346-360 | jumping to a start and stopping at the first miss is a filter |
| Ranges.ScanSelects | packages/minidb/src/skiplist.ts:317-361 | a scan in either direction selects exactly the entries within honoured bounds, in order |
| Ranges.ScanMembers | packages/minidb/src/skiplist.ts:317-361 | an entry is listed if and only if it is there and within the bounds |
| Ranges.HonouredExactly | packages/minidb/src/skiplist.ts:322-348 | a scan is right on every sorted list if and only if every key that its start misjudges lies outside the bounds on the far side |
| Ranges.AgreeingHonoured | packages/minidb/src/skiplist.ts:322-348 | bounds that agree on the side where the scan starts are honoured; with the far side open, only those |
| CompoundIndexes.TakeOut | packages/minidb/src/compound-index.ts:151-157 | taking a key out of its group keeps one slot per key and reaps an emptied group |
| CompoundIndexes.PutIn | packages/minidb/src/compound-index.ts:159-162 | putting a key in keeps one slot per key |
| CompoundIndexes.SlotsUnique | packages/minidb/src/compound-index.ts:35-36 | the group lists are determined by the placements |
| CompoundIndexes.CompoundEntry.constructor | packages/minidb/src/compound-index.ts:51-56 | an empty index |
| CompoundIndexes.CompoundEntry.Leave | packages/minidb/src/compound-index.ts:151-157 | the old slot goes |
| CompoundIndexes.CompoundEntry.Join | packages/minidb/src/compound-index.ts:119-126 | the new slot is there, in a new group if need be |
| CompoundIndexes.CompoundEntry.AddToEntry | packages/minidb/src/compound-index.ts:141-165 | exactly this key moves, and every live key still has exactly one slot |
| CompoundIndexes.CompoundEntry.RemoveFromEntry | packages/minidb/src/compound-index.ts:180-193 | exactly this key goes |
| CompoundIndexes.CompoundEntry.Replay | packages/minidb/src/compound-index.ts:170-193 | the placements after any run of adds and removes |
| CompoundIndexes.CompoundEntry.Rebuild | packages/minidb/src/compound-index.ts:211-217 | a rebuild leads to the placements of the documents it was given |
| CompoundIndexes.CompoundEntry.Range | packages/minidb/src/compound-index.ts:196-208 | a range over one group; an unknown group is empty |
| CompoundIndexes.PlacesReflect | packages/minidb/src/compound-index.ts:141-193 | after any run the placements are those of the latest documents |
| CompoundIndexes.RangesLikeRebuild | packages/minidb/src/compound-index.ts:196-217 | range answers equal those of a rebuild from the latest documents in any order |
| CompoundIndexes.RangeMembers | packages/minidb/src/compound-index.ts:196-208 | a range lists exactly the keys whose latest document lies in the group within the bounds |
| UniqueIndexes.AddTermHolds | packages/minidb/src/index-manager.ts:114-124 | adding a term adds exactly that posting |
| UniqueIndexes.DropTermHolds | packages/minidb/src/index-manager.ts:131-151 | dropping a term drops exactly that posting |
| UniqueIndexes.InsertWithoutRemove | packages/minidb/src/index-manager.ts:105-127 | inserting over an indexed key keeps postings and keys in agreement if and only if no old term is lost |
| UniqueIndexes.SecondaryIndex.constructor | packages/minidb/src/index-manager.ts:209-218 | an empty index |
| UniqueIndexes.SecondaryIndex.Dedupe | packages/minidb/src/index-manager.ts:109-112 | each distinct value once |
| UniqueIndexes.SecondaryIndex.InsertDoc | packages/minidb/src/index-manager.ts:105-127 | the key's postings are its terms, all others are untouched |
| UniqueIndexes.SecondaryIndex.RemoveKey | packages/minidb/src/index-manager.ts:131-151 | every posting of the key goes |
| UniqueIndexes.ProbeHit | packages/minidb/src/index-manager.ts:195-195 | a one-entry range at a value finds a holder if there is one |
| UniqueIndexes.SecondaryIndex.Probe | packages/minidb/src/index-manager.ts:195-203 | the current holders of a value |
| UniqueIndexes.SecondaryIndex.Vacated | packages/minidb/src/index-manager.ts:88-101 | no holder outside the batch keeps the value |
| UniqueIndexes.SecondaryIndex.CheckUnique | packages/minidb/src/index-manager.ts:155-171 | on a unique index, accepted exactly when the index with this document is unique |
| UniqueIndexes.SecondaryIndex.CheckClaims | packages/minidb/src/index-manager.ts:183-205 | the claims of one key against the claims so far and the live index |
| UniqueIndexes.SecondaryIndex.LastOps | packages/minidb/src/index-manager.ts:357-360 | the last op per key |
| UniqueIndexes.SecondaryIndex.CheckUniqueBatch | packages/minidb/src/index-manager.ts:176-207 | on a unique index, accepted exactly when the index after the whole batch is unique, whatever the order of the ops |
| UniqueIndexes.BatchExact | packages/minidb/src/index-manager.ts:176-207 | probing only the values the batch claims decides uniqueness of the whole final state |
| UniqueIndexes.SoleHolder | packages/minidb/src/index-manager.ts:196-203 | on a unique index a value has one holder |
| UniqueIndexes.SecondaryIndex.ApplyOp | packages/minidb/src/index-manager.ts:105-151 | removing and inserting one key leads to its claim |
| UniqueIndexes.SecondaryIndex.ApplyBatch | packages/minidb/src/index-manager.ts:341-364 | applying a batch op by op leads to the claims of the last op per key |
| UniqueIndexes.SecondaryIndex.Transact | packages/minidb/src/index-manager.ts:341-364 | check and apply: accepted if and only if the outcome is unique, and then it is the outcome; otherwise nothing changes |
| Crc.RollAppend | packages/minidb/src/crc32.ts:34-37 | the register over a concatenation |
| Crc.Streaming | packages/minidb/src/crc32.ts:25-39 | continuing a checksum is the checksum of the concatenation |
| Crc.Checksum | packages/minidb/src/crc32.ts:32-39 | the loop computes the register function |
| Crc.ChunkedChecksum | packages/minidb/src/codec.ts:360-370 | a checksum taken in chunks is that of the range |
| Bytes.UnsignedLE | packages/minidb/src/codec.ts:132-134 | unsigned little-endian fields read back |
| Bytes.LEUnsigned | packages/minidb/src/codec.ts:296-298 | and every field is the encoding of its value |
| Bytes.Signed64LE | packages/minidb/src/codec.ts:135-135 | signed 64-bit fields read back |
| Bytes.LE64Signed | packages/minidb/src/codec.ts:307-307 | and every eight bytes encode their value |
| Codec.EncodeFrame | packages/minidb/src/codec.ts:110-144 | succeeds exactly within the field limits, and then yields the frame's bytes |
| Codec.FrontOfFrame | packages/minidb/src/codec.ts:293-323 | an encoded frame validates whatever follows it |
| Codec.FrameReadsBack | packages/minidb/src/codec.ts:110-323 | encoding then reading gives the frame back at any position; an empty value or meta reads as empty or none |
| Codec.FrontLocal | packages/minidb/src/codec.ts:293-305 | only the bytes of the frame decide whether it validates |
| Codec.FrameExtends | packages/minidb/src/codec.ts:293-323 | appending bytes never changes a frame that is there |
| Codec.FrameRefAt | packages/minidb/src/codec.ts:345-396 | the file reader accepts the same frames as the memory reader and its offsets slice the same fields |
| FrameScan.PiecesTile | packages/minidb/src/codec.ts:809-849 | frames and corrupt ranges cover the file without gap or overlap, no corrupt range holds a valid frame start, no two touch |
| FrameScan.TilesUnique | packages/minidb/src/codec.ts:809-849 | there is no other such cutting of the file |
| FrameScan.Resync | packages/minidb/src/codec.ts:830-842 | resynchronisation finds the next valid frame and no earlier one is missed |
| FrameScan.Scan | packages/minidb/src/codec.ts:809-849 | the scan terminates with the frames, corrupt ranges and end offset of the tiling |
| FrameScan.ParseBuffer | packages/minidb/src/codec.ts:809-849 | the same for a buffer in memory |
| FrameScan.ScanStrict | packages/minidb/src/codec.ts:825-828 | the strict scan delivers the run of frames from the start and declares the rest corrupt |
| FrameScan.RunThrough | packages/minidb/src/codec.ts:433-444 | frames that stand one after the other are delivered in order |
| FrameScan.RunExactly | packages/minidb/src/codec.ts:433-444 | and nothing else, if nothing valid follows |
| FrameScan.ScanThrough | packages/minidb/src/codec.ts:817-823 | the same for the scan with resynchronisation |
| FrameScan.ResyncRecovers | packages/minidb/src/codec.ts:830-846 | damage loses only the damaged stretch: all frames behind it are recovered |
| FrameScan.PrefixNoFrame | packages/minidb/src/codec.ts:294-302 | a torn frame does not validate |
| FrameScan.FrontFraming | packages/minidb/src/codec.ts:293-305 | frames are recognised whatever follows and not before they are complete |
| FrameScan.ChunksLay | packages/minidb/src/codec.ts:817-823 | concatenated encodings stand one after the other |
| FrameScan.EncodedParsesBack | packages/minidb/src/codec.ts:110-849 | the concatenation of encoded frames parses back to exactly those frames with no corrupt range |
| WindowReader.FindMagic | packages/minidb/src/codec.ts:727-728 | the search of a window finds the first two bytes of magic in it |
| WindowReader.ParseInWindow | packages/minidb/src/codec.ts:578-619 | what the window holds decides about a frame as the whole file would, or the frame reaches beyond it |
| WindowReader.TryFrame | packages/minidb/src/codec.ts:681-694 | trying a position through the window, a refilled window or a read of its own gives the verdict of the memory reader |
| WindowScan.HuntRound | packages/minidb/src/codec.ts:723-753 | one round of the search for the next frame |
| WindowScan.HuntExact | packages/minidb/src/codec.ts:720-754 | a resynchronisation resumes at the next valid frame if and only if candidates are left when it gets there and the window does not end between the two bytes of its magic |
| WindowScan.ScanExact | packages/minidb/src/codec.ts:706-758 | the windowed scan yields the tiling of the file if and only if every resynchronisation tries the next valid frame |
| WindowScan.TailOnly | packages/minidb/src/codec.ts:706-758 | nothing is missed in a file with nothing valid behind its first corruption |
| WindowScan.WideEnough | packages/minidb/src/codec.ts:419-465 | nothing is missed in a file that fits the window and has no more magic than the budget allows candidates |
| WindowScan.EdgeMissed | packages/minidb/src/codec.ts:729-740 | a frame whose magic straddles the end of the first window is stepped over |
| WindowScan.ScanEnds | packages/minidb/src/codec.ts:755-760 | the reported end is the start of a corrupt range that reaches the end of the file, or else the end of the file |
| WindowScan.ScanThroughWindow | packages/minidb/src/codec.ts:706-760 | the loop yields the frames, corrupt ranges and end of the windowed scan |
| WindowReader.ScanWindowed | packages/minidb/src/codec.ts:626-761 | the same on the bytes of a file |
| WindowReader.EdgeFrameLost | packages/minidb/src/codec.ts:729-740 | bytes for every window and budget on which trying every position finds a frame and the windowed scan finds nothing |
| WindowReader.EdgeExists | packages/minidb/src/codec.ts:729-740 | there are such bytes for every window |
| BatchCodec.OpReadsBack | packages/minidb/src/codec.ts:170-203 | one encoded sub-op reads back whatever follows |
| BatchCodec.OpCanonical | packages/minidb/src/codec.ts:191-203 | what is accepted as a sub-op is the encoding of what it is read as |
| BatchCodec.BodyReadsBack | packages/minidb/src/codec.ts:157-209 | decoding undoes encoding on every list of fewer than 65536 fitting ops |
| BatchCodec.BodyCanonical | packages/minidb/src/codec.ts:186-209 | every accepted body is the encoding of what it decodes to |
| BatchCodec.OpsPrefixFree | packages/minidb/src/codec.ts:205-207 | no accepted body is a proper prefix of an accepted body with the same count |
| BatchCodec.ExactLength | packages/minidb/src/codec.ts:205-207 | trailing bytes are rejected |
| BatchCodec.TruncatedRejected | packages/minidb/src/codec.ts:189-199 | every proper prefix of an accepted body is rejected |
| BatchCodec.EncodeBatchOps | packages/minidb/src/codec.ts:157-184 | succeeds exactly on fitting SET and DEL ops and yields the body |
| BatchCodec.DecodeBatchOps | packages/minidb/src/codec.ts:186-209 | the loop computes the decoding with its errors |
| BatchCodec.ScanBatchOpRefs | packages/minidb/src/codec.ts:769-798 | accepts the same bodies, with the same errors, and its offsets slice the decoded values |
| Varint.OrDisjoint | packages/minidb/src/text-postings.ts:53-53 | bits that do not overlap add up |
| Varint.DecodeEncoded | packages/minidb/src/text-postings.ts:38-58 | decoding undoes encoding from any accumulator on |
| Varint.ReadsBack | packages/minidb/src/text-postings.ts:38-58 | decoding undoes encoding on every 32-bit number, in at most five bytes |
| Varint.EncodeInto | packages/minidb/src/text-postings.ts:38-45 | the loop appends the encoding of the number modulo 2^32 |
| Varint.DecodeAt | packages/minidb/src/text-postings.ts:47-58 | the loop computes the decoding with its errors |
| Postings.PairsReadBack | packages/minidb/src/text-postings.ts:66-98 | ascending pairs read back through the deltas |
| Postings.ListReadsBack | packages/minidb/src/text-postings.ts:66-98 | decoding undoes encoding on every ascending list; with a limit it gives exactly the prefix |
| Postings.EncodePostingList | packages/minidb/src/text-postings.ts:66-77 | the loop computes the encoding |
| Postings.DecodePostingList | packages/minidb/src/text-postings.ts:85-98 | the loop computes the decoding |
| PostingsFiles.EncodeRecord | packages/minidb/src/text-postings.ts:109-129 | succeeds exactly within the field limits |
| PostingsFiles.RecordReadsBack | packages/minidb/src/text-postings.ts:109-150 | a record reads back with its checksum verified |
| PostingsFiles.FlushBatch | packages/minidb/src/text-postings.ts:263-275 | under short writes the file grows by exactly the batch, and so does the checksum |
| PostingsFiles.IndexesMore | packages/minidb/src/text-postings.ts:277-287 | one term more: every pointer still names its record |
| PostingsFiles.Rebuild | packages/minidb/src/text-postings.ts:251-307 | under any batching and short writes every dictionary pointer names its term's record, with the file's length and checksum |
| PostingsFiles.PointerReadsBack | packages/minidb/src/text-postings.ts:200-211 | reading through a pointer gives the term's list, or its prefix |
| Recovery.FoldIsLast | packages/minidb/src/recovery.ts:125-152 | the plain replay is the last writer of each key |
| Recovery.AgreesStep | packages/minidb/src/recovery.ts:142-151 | replaying an expired SET as a DEL, at any later clock reading, keeps agreement with the plain replay |
| Recovery.AgreesLive | packages/minidb/src/recovery.ts:131-145 | in agreement, later readers see the same |
| Recovery.SkippingResurrects | packages/minidb/src/recovery.ts:135-141 | skipping an expired SET instead of deleting its key brings an older record back exactly if the key was live before it and is not written again |
| Recovery.Store.SetRef | packages/minidb/src/recovery.ts:231-231 | the store after a SET |
| Recovery.Store.Delete | packages/minidb/src/recovery.ts:232-232 | the store after a DEL |
| Recovery.ApplyFrame | packages/minidb/src/recovery.ts:160-187 | one frame; a malformed batch contributes nothing and is reported |
| Recovery.ApplyFrames | packages/minidb/src/recovery.ts:220-236 | the frames of a file at any non-decreasing clock readings: readers see the last live writer |
| Recovery.RecoverPass | packages/minidb/src/recovery.ts:405-439 | the apply of both files: the snapshot's frames, then the log's, with the count of malformed batches |
| CatchUp.StrictOnLog | packages/minidb/src/recovery.ts:526-532 | on a log with a torn tail the strict scan delivers the whole frames and stops behind them |
| CatchUp.CatchUpWal | packages/minidb/src/recovery.ts:513-548 | frames and the next watermark, or a refusal exactly when the offset starts neither a frame nor a frame's beginning |
| CatchUp.CatchUpOnLog | packages/minidb/src/recovery.ts:532-544 | at a boundary of the log a catch-up is never refused and returns a boundary |
| CatchUp.Follow | packages/minidb/src/recovery.ts:490-548 | any sequence of catch-ups delivers each whole frame once, in order |
| CatchUp.FollowIsOneScan | packages/minidb/src/recovery.ts:490-548 | which is what one strict scan delivers |
| CatchUp.TruncationLosesNothing | packages/minidb/src/recovery.ts:440-455 | cutting off the last corrupt range of the exact tiling leaves the same frames and the same other corrupt ranges |
| CatchUp.CutBuffer | packages/minidb/src/recovery.ts:447-453 | a cut file validates exactly the frames that end before the cut |
| CrashRecovery.Recover | packages/minidb/src/recovery.ts:366-456 | recovery from two files, in both modes and through every window: readers see the last live writer over the frames the scanner yields, and a corrupt tail is cut off |
| CrashRecovery.ScanFile | packages/minidb/src/recovery.ts:403-433 | the frames, corrupt ranges and end that recovery works with, in both modes |
| CrashRecovery.TruncationSafe | packages/minidb/src/recovery.ts:440-453 | what truncation leaves: in strict mode the same run of frames; with resynchronisation, if nothing was missed, exactly the valid frames of the file |
| CrashRecovery.CutAtEof | packages/minidb/src/recovery.ts:440-453 | cutting a file where its valid data ends keeps its frames and leaves no corrupt tail |
| CrashRecovery.TornTailExact | packages/minidb/src/recovery.ts:440-453 | nothing is missed in a file with nothing valid behind its first corruption |
| CrashRecovery.SmallFileExact | packages/minidb/src/recovery.ts:403-433 | nothing is missed in a file that fits the window and the budget |
| CrashRecovery.EdgeFrameDestroyed | packages/minidb/src/recovery.ts:433-450 | a log whose only frame straddles the end of the first window recovers to nothing, and truncation cuts the frame off |
| CrashRecovery.LogFile | packages/minidb/src/recovery.ts:403-433 | a file of encoded frames is scanned right in both modes and through every window |
| CrashRecovery.EveryImageRecovers | packages/minidb/src/compaction.ts:238-373 | from the bytes up: between the renames and after both, the files recover to what the old snapshot and the whole log recover to, though every record was captured at a moment of its own |
| CrashRecovery.Compact | packages/minidb/src/compaction.ts:238-400 | a compaction by writers that append whole frames: every pair of files on disk on the way, whether it succeeds or fails, recovers to what the old snapshot and the whole log recover to |
| CrashRecovery.LogFirstLoses | packages/minidb/src/compaction.ts:354-363 | were the log renamed first, the pair in between would be wrong for a key the tail does not write exactly if the log before the fence had changed it |
| CrashRecovery.FollowWal | packages/minidb/src/recovery.ts:490-548 | following a growing log of encoded frames at any sizes delivers and ends where one strict scan of the last size does |
| Snapshot.FlushBatch | packages/minidb/src/snapshot.ts:70-97 | under short vectored writes the file grows by exactly the batch |
| Snapshot.Advance | packages/minidb/src/snapshot.ts:82-93 | after a short write exactly the unwritten bytes are left |
| Snapshot.ValueAt | packages/minidb/src/snapshot.ts:101-107 | the recorded location slices the value out of the file |
| Snapshot.WriteRecords | packages/minidb/src/snapshot.ts:99-132 | all frames in order, and a location for every key |
| Snapshot.WriteSnapshot | packages/minidb/src/snapshot.ts:55-132 | the file is the concatenation of the frames, count and length are right, every location reads its value |
| Snapshot.SnapshotReadsBack | packages/minidb/src/snapshot.ts:55-132 | parsing and replaying the snapshot gives exactly its records |
| Compaction.CapturedIsFuzzy | packages/minidb/src/compaction.ts:243-257 | however the moments of capture are spread, only keys the tail touches can differ from the fence |
| Compaction.TailRepairs | packages/minidb/src/compaction.ts:249-250 | the tail repairs such a snapshot |
| Compaction.WholeLogRepairs | packages/minidb/src/compaction.ts:302-304 | so does the whole old log |
| Compaction.CrashPoints | packages/minidb/src/compaction.ts:354-363 | all three snapshot and log pairs recover alike |
| Compaction.TailParses | packages/minidb/src/compaction.ts:261-283 | the log behind the fence parses on its own into the later operations |
| Compaction.Files.constructor | packages/minidb/src/compaction.ts:238-241 | the files before a compaction |
| Compaction.Files.Writers | packages/minidb/src/compaction.ts:287-294 | writers only append, and not to a sealed log |
| Compaction.Files.CopyFileRange | packages/minidb/src/compaction.ts:174-209 | copies exactly the range, though the log grows meanwhile and reads and writes are short |
| Compaction.Files.CopyPass | packages/minidb/src/compaction.ts:274-282 | one pass extends the copy to the flushed head |
| Compaction.Files.PreCopy | packages/minidb/src/compaction.ts:270-283 | at most five passes, and the copy is the log from the fence to the last head |
| Compaction.Files.Drain | packages/minidb/src/compaction.ts:333-343 | the loop ends on a sealed log, with the new log exactly the bytes behind the fence |
| Compaction.Files.RunCompaction | packages/minidb/src/compaction.ts:238-400 | the file pairs on disk at every moment of a compaction that succeeds or fails, before the renames, between them or after both |
| Compaction.RotationReadsSame | packages/minidb/src/compaction.ts:319-331 | with a snapshot captured while writers ran, every pointer of a record that has not expired reads the bytes after the rotation that it read before |
| Compaction.RemapTwice | packages/minidb/src/compaction.ts:319-322 | remapping twice is harmless for every pointer exactly if the fence was at the start of the log; which pointers behind it go wrong |
| GenerationBuilds.DrainLocal | packages/minidb/src/generation-builder.ts:339-360 | feeding a record before the drain shows only where no later operation on its key overrides it |
| GenerationBuilds.DrainKeepsDt | packages/minidb/src/generation-builder.ts:343-356 | the stored dt bytes follow the image |
| GenerationBuilds.StaleExpiry | packages/minidb/src/write-path.ts:706-743 | a run: the key is set anew before a rewrite of its expiry commits; the seal holds the stale record in the newer one's place, wrong exactly if the two places differ |
| GenerationBuilds.RevivedExpiry | packages/minidb/src/write-path.ts:706-743 | a run: the key is deleted before the rewrite commits; it is back in the store and placed nowhere, wrong exactly if its record has a place |
| GenerationBuilds.SealsWrong | packages/minidb/src/write-path.ts:706-743 | so a build from the start can seal a wrong placement |
| GenerationBuilds.WriteFeeds | packages/minidb/src/generation-builder.ts:339-360 | a write moves its key to the place of its record, unless it is a rewrite of the expiry |
| GenerationBuilds.VisitFeeds | packages/minidb/src/generation-builder.ts:427-440 | so does a walk step, unless a later write to the key is queued |
| GenerationBuilds.WriteTracks | packages/minidb/src/write-path.ts:578-593 | a write to store and queue keeps the build on track |
| GenerationBuilds.VisitTracks | packages/minidb/src/generation-builder.ts:427-440 | so does a walk step that feeds the current record under a pending queue |
| GenerationBuilds.GenerationBuild.constructor | packages/minidb/src/generation-builder.ts:417-419 | registering the queue on a running store |
| GenerationBuilds.GenerationBuild.Push | packages/minidb/src/write-path.ts:578-593 | store and queue take a write in one step, and the build stays on track |
| GenerationBuilds.GenerationBuild.Set | packages/minidb/src/write-path.ts:582-593 | an ordinary write |
| GenerationBuilds.GenerationBuild.Delete | packages/minidb/src/write-path.ts:568-593 | a deletion |
| GenerationBuilds.GenerationBuild.Expire | packages/minidb/src/write-path.ts:699-747 | a rewrite of the expiry with a record read earlier, whatever has happened to the key since; when placements stay steady |
| GenerationBuilds.GenerationBuild.Reap | packages/minidb/src/generation-builder.ts:427-429 | an expired record goes without word to the queue |
| GenerationBuilds.GenerationBuild.Rollback | packages/minidb/src/generation-builder.ts:362-363 | a rewound store aborts the build |
| GenerationBuilds.GenerationBuild.Others | packages/minidb/src/generation-builder.ts:446-446 | whatever happens at a yield keeps the build on track or aborts it |
| GenerationBuilds.GenerationBuild.DrainQueue | packages/minidb/src/generation-builder.ts:339-360 | the queue is empty and the states are what it led to |
| GenerationBuilds.GenerationBuild.Visit | packages/minidb/src/generation-builder.ts:427-440 | the walk takes the next key, passing over keys that are gone |
| GenerationBuilds.GenerationBuild.Seal | packages/minidb/src/generation-builder.ts:462-464 | the build is sealed unless it is dead, on the states the queue led to |
| GenerationBuilds.GenerationBuild.Build | packages/minidb/src/generation-builder.ts:417-470 | a sealed image equals the live store up to elapsed expiries and the replay of all writes; the dt bytes agree with it; every key stands where the record last fed puts it, so it is well placed exactly if its stored record belongs there; with steady expiries all are |
| StreamAssembly.ConsumeTracks | packages/kosong/src/generate.ts:145-200 | each part leaves the message, with the pending part, on track with the stream so far |
| StreamAssembly.DeltaShows | packages/kosong/src/generate.ts:162-195 | an argument delta reaches the call it is routed to, pending or stored |
| StreamAssembly.ContentShows | packages/kosong/src/message.ts:172-189 | merging content loses and reorders nothing |
| StreamAssembly.RedirectShows | packages/kosong/src/generate.ts:167-182 | a delta with a known index bypasses the pending part |
| StreamAssembly.OrphanShows | packages/kosong/src/generate.ts:341-341 | a delta without a call changes nothing |
| StreamAssembly.FlushShows | packages/kosong/src/generate.ts:317-342 | flushing the pending part completes the message |
| StreamAssembly.TakePart | packages/kosong/src/generate.ts:162-195 | one round of the loop |
| StreamAssembly.Assemble | packages/kosong/src/generate.ts:145-214 | the calls in header order with their routed arguments, and all content in order |
| StreamAssembly.Generate | packages/kosong/src/generate.ts:145-265 | refused exactly when the stream has nothing, or only thinking without call or visible text; otherwise the text is the concatenation of all text parts |
| StreamAssembly.RouteByIndex | packages/kosong/src/generate.ts:167-182 | with distinct indices an indexed delta goes to its own call |
| StreamAssembly.OrderlyCalls | packages/kosong/src/generate.ts:145-214 | when each indexed delta follows its own header, a call's arguments are its header's followed by its own deltas in arrival order |
| StreamAssembly.InterleavingIrrelevant | packages/kosong/src/generate.ts:162-166 | two interleavings of the same headers and per-call deltas yield the same calls |
| StreamAssembly.TextIsLetters | packages/kosong/src/message.ts:211-216 | the extracted text is the letters of the content, however it was split into parts |
| StreamAssembly.TextOfStream | packages/kosong/src/message.ts:211-216 | text extraction distributes over concatenation |
| StreamAssembly.KindsMembers | packages/kosong/src/generate.ts:228-230 | which kinds of parts a stream holds |
| StreamAssembly.InkAnywhere | packages/kosong/src/generate.ts:229-229 | the text has a visible character exactly if some text part has |

## Left out

- Lock: bid and tmp files, settle durations, retries of a refused rename (a nondeterministic refusal stands for them) and the synchronous release of the exit hook. Failing file operations are left out, and a dead pid never lives again.
- LockRuns.HarmfulExactly: assumes that no watch file with a body is left over from an earlier process that had the pid of a deciding contender. Such a file keeps the contender from ever winning; whether exclusion then survives a harmful death is not stated.
- Lock: instances are values of a state machine, so the promise chain that serialises acquire, renew and release of one instance appears as its phase.
- Scheduler: the tasks' bodies, nested submissions, the disk preflight beyond failing a task, and timers. `WorkerSlots` is a plain counter.
- Skip list: `iterate` and `bulkLoadAsync`, twins of `range` and `bulkLoad`.
- CompoundIndexes.CompoundEntry.AddToEntry: the group lists are held by their contents, which `SkipLists.SkipList` shows its methods to change in just this way; sharing of list objects and the registry of named and staged indexes are not modelled. Path extraction is the parameter `place`.
- UniqueIndexes.SecondaryIndex.CheckUniqueBatch: one index; the loop over all live and staged indexes repeats it. Field extraction and scalar keys are applied before the model starts.
- UniqueIndexes.SecondaryIndex.InsertDoc: on a range index it relies on the caller having removed the key, as its own comment in the source does.
- Codec: flags (always zero), the rounding of 64-bit expiries by `Number`, two length checks that can never fail, `FrameParser`, and the yields and cancellation of the asynchronous scanner.
- Codec: nothing is claimed about the strength of the checksum.
- Postings: UTF-8 encoding of terms (a term is its bytes), fsync and the final rename.
- PostingsFiles.Rebuild: that it succeeds is not claimed, because writes may fail.
- Recovery: JSON of the metadata (kept as opaque bytes), file identity and generation retries, the disk mode of values, slicing of the apply loop.
- CrashRecovery.EveryImageRecovers: the log is a sequence of whole encoded frames; a frame torn by the crash is the business of the strict scan (`CatchUp.StrictOnLog`). Under resynchronisation the payload of a torn frame could itself contain a valid frame.
- Snapshot: grouping of disk-backed values and their concurrent reads; the records are given as a list with distinct keys.
- Compaction.Files.RunCompaction: fsync and directory fsync, the Windows path, statistics and the completion hook.
- Compaction.RotationReadsSame: a pointer whose key the snapshot does not hold, because its record had expired, is left as it was and reads nothing meaningful.
- GenerationBuilds.GenerationBuild.Build: secondary and text states are not modelled, since the walk inserts without removing first; the queue caps, a replaced log and a closing instance are nondeterministic aborts. The dt columns are kept as bytes, without the date index that the code feeds from them.
- Stream assembly: parts are values, so the deep copies that protect callbacks are not modelled; media parts are opaque; extras, callbacks, abort and timing are left out.
- Query planning, backups, the other image formats, the log's own batching and the terminal applications.
