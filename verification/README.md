# F2FS: logs, tables, recovery and codecs

This project models the core of F2FS, the log-structured file system of Linux 4.1
(`fs/f2fs/`), and proves what its data structures promise each other. Everything is
stated in the file system's own terms; the citations below are to its source files.

* **Logs, SIT and checkpoint.** `SegmentState` has the segment manager as values and
  step functions, `SegmentInvariant` the invariant every step keeps, `SegmentRuns`
  the runs (writes, invalidations, checkpoints in three stages, crashes, mounts,
  roll-forward) and the crash-safety theorem, `SegmentManager` the same operations
  done in place. `Allocator` and `Victim` are get_new_segment and the victim scan,
  `WarmLog` shows that the warm-node log never comes back to a block used since the
  checkpoint and that no other log writes over its blocks, `BitSearch` has the
  word-level searches, `FreeOffsets` ties them to the sets of bits of the segment
  model, and `Discard` and `SmallDiscards` are what is collected with them.
* **NAT and SIT as shadowed tables.** `ShadowTable` is the scheme both share (a journal
  over twin blocks picked by a version bit), `NatState`/`NatManager` and `SitTable`
  the caches above it and their flushes.
* **Checkpoint packs.** `CheckpointPack` is the layout and its round trip,
  `CheckpointCommit` which pack a mount picks and why a crash at any point leaves
  either the old NAT and SIT or the new ones, `CheckpointManager` the writing and
  reading block by block, `CompactSummaries` the packed summary pages.
* **Roll-forward.** `RecoveryChain` is the chain of warm-node blocks and the two passes
  over it, `ChainRuns` the runs of the segment manager together with the device, with the
  theorem on what the walk meets after any crash, `SecondLives` the runs where it runs on or
  never ends, `RecoveryOwnership` the re-pointing of indices over the segments and their
  summaries, and `FsyncedPointers` the whole way from a run to the recovered pointers.
* **Files.** `NodePath` is the index arithmetic, `FileTree`/`Truncate` the pointer tree
  and its truncation, `Extents`/`ExtentCache` the two extent caches, `Cleaning` the
  moving of a victim section's blocks.
* **Directories and extended attributes.** `DirBlock`/`Directory` are the hashed
  directory and the inline conversion, `XattrCodec`/`XattrManager` the attribute list
  edited in place.

`Division`, `Folds` and `Options` have the few general facts and types the rest uses.
`dafny verify dfyconfig.toml` checks all of it.

Conventions: a locked region is one step; a page is its contents; a bitmap is the set of
its set bits, except in `BitSearch`, where it is words; a block address of the main area is
a pair of segment and offset in the segment and recovery modules and a number elsewhere. Sizes the
source takes from its on-disk format header are symbolic, with the inequalities the code
needs. NAT and SIT entries, journal values, summary entries and file contents are type
parameters where their inside does not matter.

Where the code and what it is for part ways, the model follows the code, the intended
property is proved with its exact condition, and the failing inputs are shown:

* the right half of a split extent is inserted one address too low
  (`Extents.AsWrittenAgreesIff`, `Extents.AsWrittenRunIff`, `Extents.AsWrittenFails`), and a
  later cut can then trip the insertion's bug check, also for a file that never uses a
  block twice (`ExtentCache.ExtentTree.UpdateExtentTree` says exactly when,
  `ExtentCache.RunTripsBug` is such a run);
* the next-set-bit search looks at one byte of its first word only
  (`BitSearch.FindRevNextBit`, `BitSearch.NextBitMisses`); what is discarded is
  right all the same (`Discard.Discards.AddDiscardAddrs`);
* inline directories are converted into block 0 whatever the entries' hashes
  (`Directory.ConversionRightIff`, `Directory.LookupAfterConversion`);
* truncation in the last leaf of a file of the largest size runs off the tree
  (`Truncate.Inode.TruncateBlocks` says exactly when, `Truncate.MaximumSizeOffTheEnd` and
  `Truncate.LastLeafOffTheEnd` for which files);
* roll-forward looks for a block's owner in the WARM_DATA and COLD_DATA logs' summaries but
  not in the HOT_DATA log's (`RecoveryOwnership.AsWrittenKeepsIff`,
  `RecoveryOwnership.AsWrittenRunIff`, `RecoveryOwnership.TwoOwners`);
* a mount that finds nothing to recover writes no checkpoint, so that a second crash can let
  the walk run on into blocks of the life before, or go round for ever
  (`ChainRuns.CrashWalk` and `ChainRuns.CrashWalkEnds` say exactly when,
  `SecondLives.WalkRunsOn` and `SecondLives.WalkNeverEnds` are such runs, and
  `RecoveryChain.StaleTailHarmless` says when running on does no harm);
* the comment in allocate_data_block says that the SIT must be updated before a segment
  is allocated; the code allocates first, and so does the model.

## Model

| member | source | states |
|---|---|---|
| `SegmentInvariant.AllocateKeeps` | fs/f2fs/segment.c:1161-1207 | allocate_data_block keeps the whole segment invariant (counters are bitmap sizes, section counters are sums, free maps, dirty lists, logs); the block it hands out is free in the running and the checkpointed map; no checkpointed map changes; every log has room again |
| `SegmentInvariant.InvalidateKeeps` | fs/f2fs/segment.c:702-720 | invalidate_blocks keeps the invariant and every checkpointed map |
| `SegmentInvariant.LocateKeeps` | fs/f2fs/segment.c:388-462 | locate_dirty_segment files a segment that had lost its place as current, pre-free, dirty or full, and refiles nothing else |
| `SegmentInvariant.UpdateSitKeeps` | fs/f2fs/segment.c:653-690 | update_sit_entry keeps valid_blocks the size of the running map, ckpt_valid_blocks that of both maps together, and the section sums, for either sign |
| `SegmentInvariant.SetTestAndFreeOk` | fs/f2fs/segment.h:359-379 | __set_test_and_free clears the section bit exactly when the section has emptied; the free counters stay the counts of their bitmaps |
| `SegmentInvariant.SetInuseOk` | fs/f2fs/segment.h:348-357 | __set_inuse keeps free_segments and free_sections the counts of their bitmaps |
| `SegmentInvariant.SetPrefreeFreeOk` | fs/f2fs/segment.c:581-590 | freeing all pre-free segments at once keeps the free maps and counters exact |
| `SegmentInvariant.NewCursegKeeps` | fs/f2fs/segment.c:909-927 | taking a free segment keeps the core invariant and leaves the log on a segment that is in use, typed and on no list |
| `SegmentInvariant.ChangeCursegKeeps` | fs/f2fs/segment.c:965-992 | taking over a dirty segment keeps the core invariant and leaves the log at a hole free in both maps |
| `SegmentInvariant.AdvanceKeeps` | fs/f2fs/segment.c:952-959 | __refresh_next_blkoff steps over exactly the block handed out; everything ahead of the log is still free in both maps |
| `SegmentInvariant.RefreshKeeps` | fs/f2fs/segment.c:692-700 | refresh_sit_entry with both relocations restores the whole placement of segments |
| `SegmentInvariant.SwitchKeeps` | fs/f2fs/segment.c:1015-1032 | leaving a full segment for a free one or an SSR victim keeps the invariant but for the segment left, and the new position has room |
| `SegmentInvariant.ForceNewSegmentKeeps` | fs/f2fs/segment.c:1034-1042 | forcing a log onto a fresh segment keeps the invariant and files the segment it left |
| `SegmentInvariant.FlushKeeps` | fs/f2fs/segment.c:1726-1828 | flushing makes every checkpointed map equal to the running one, changes no running map and keeps the invariant |
| `SegmentInvariant.FreePrefreeKeeps` | fs/f2fs/segment.c:592-630 | freeing and then clearing the pre-free list restores the full invariant |
| `SegmentInvariant.PrefreeEmpty` | fs/f2fs/segment.c:388-462 | a pre-free segment holds no valid block |
| `SegmentInvariant.FreeOffsetExists` | fs/f2fs/segment.c:929-945 | a bitmap with fewer than blocks_per_seg bits has a free offset, so an SSR victim of cost below a full segment always has a slot |
| `SegmentRuns.RunSafe` | fs/f2fs/segment.c:1161-1207 | crash safety over every run of writes, invalidations, segment switches, checkpoints, crashes, mounts and roll-forward steps: no block the last committed checkpoint holds valid is written or discarded before the next one commits |
| `SegmentRuns.StepSafe` | fs/f2fs/checkpoint.c:1080-1085 | one step of any such run keeps the world's invariant and touches no block the committed checkpoint needs |
| `SegmentRuns.MountEstablishes` | fs/f2fs/segment.c:1959-2050 | mounting from any consistent durable state (build_sit_entries, init_free_segmap, init_dirty_segmap) establishes the whole invariant |
| `SegmentRuns.SnapshotOk` | fs/f2fs/segment.h:306-316 | what a checkpoint writes out of a valid state is a state a mount can start from |
| `SegmentRuns.RecoverKeeps` | fs/f2fs/segment.c:1261-1302 | recover_data_page keeps the recovery invariant although its log may stand anywhere |
| `SegmentRuns.FirstMountGood` | fs/f2fs/segment.c:1959-2050 | a freshly mounted world satisfies the run invariant, with or without roll-forward |
| `SegmentRuns.SegmentPartition` | fs/f2fs/segment.c:388-462 | between operations a segment is exactly one of current, free, pre-free, dirty and full, and the per-type maps partition DIRTY |
| `SegmentRuns.SectionBitExact` | fs/f2fs/segment.h:328-393 | a section bit is clear exactly when all its segments are free; nr_dirty, free_segments and free_sections are the counts of their bitmaps |
| `WarmLog.AllocateBehind` | fs/f2fs/segment.c:1015-1032 | allocate_data_block for any log keeps everything used since the checkpoint behind the warm-node log, which only ever moves to free segments; its own block too |
| `WarmLog.AllocateTyped` | fs/f2fs/segment.c:994-1032 | the segments the warm-node log has written stay in use and of its type whatever any log moves to: SSR offers a node log only its own type and a data log only data |
| `WarmLog.OtherLogElsewhere` | fs/f2fs/segment.c:1161-1207 | no other log is about to write over a block of the chain or where the chain goes on |
| `WarmLog.ForceBehind` | fs/f2fs/segment.c:1034-1050 | forcing a data log onto a new segment disturbs neither |
| `ChainRuns.CrashWalk` | fs/f2fs/segment.c:1161-1211 | after any run of writes to all six logs (SSR included), invalidations, switches, discards, checkpoints, crashes, mounts and roll-forwards, and a crash that lets any set of blocks reach the device, the walk from the committed checkpoint's next warm-node address comes in order to the warm-node blocks written since, up to the first lost; if no crash came since the commit it visits exactly these, otherwise exactly these if and only if the block it ends on is not left over from an earlier life |
| `ChainRuns.CrashWalkEnds` | fs/f2fs/recovery.c:172-230 | after the crash the walk ends if and only if it repeats no block in as many steps from the first lost block as there are blocks, and one; if no crash came since the commit it ends |
| `ChainRuns.CrashClaimable` | fs/f2fs/recovery.c:392-422 | after any run and a crash, all that the version's node blocks point to lies in data segments or in idle empty ones of the mount, since what they showed when written was where the data logs had written |
| `ChainRuns.StepGood` | fs/f2fs/segment.c:1161-1211 | every act of such a run keeps the world good, the chain linked, no block of a version above the checkpoint's, every file pointer on a valid data block of its own, and the pointers of every node block of the version in segments the checkpoint leaves to data |
| `SecondLives.WalkRunsOn` | fs/f2fs/recovery.c:533-534 | two lives with a crash and no checkpoint between them after which the walk runs on into a block of the first |
| `SecondLives.WalkNeverEnds` | fs/f2fs/recovery.c:172-230 | two lives after which the walk never ends, although every act of both is allowed |
| `FsyncedPointers.FsyncedPointersRecovered` | fs/f2fs/recovery.c:441-505 | from any run since a commit, through a crash that keeps any set of blocks, to the intended replay: exactly the kept blocks of listed inodes up to each one's last fsync-marked one are replayed, and an index one of them gives a block ends where it pointed when the last such block was written, unless that one or a later one hands the block on |
| `FsyncedPointers.ReplayedTo` | fs/f2fs/recovery.c:392-422 | the same for any device and chain: an index ends at what the last replayed page that gives it a block says, unless it is handed on |
| `ChainRuns.WriteEnabled` | fs/f2fs/node.h:239-246 | every write of the segment manager is one the chain allows: the warm-node log's next address is unused since the commit, and no other log writes over the chain |
| `ChainRuns.LostUnused` | fs/f2fs/checkpoint.c:887-893 | a discard, of the next warm-node block or of freed blocks, takes nothing written since the commit or mount |
| `ChainRuns.FirstLifeGood` | fs/f2fs/segment.c:1959-2050 | a mount of a checkpoint newer than every block starts such a run |
| `Allocator.NewSegmentFree` | fs/f2fs/segment.c:797-884 | get_new_segment returns a segment that was free, in the log's own section or in a section that was free, for either direction, any hint and any zones |
| `Allocator.GetNewSegment` | fs/f2fs/segment.c:797-884 | the two searches with wrap, left turn and zone retry compute that segment and end; the in-use assertion never fires |
| `Allocator.ChooseSection` | fs/f2fs/segment.c:820-879 | at most two section searches choose the section specified by SectionChoice |
| `Allocator.SearchOnce` | fs/f2fs/segment.c:820-850 | one search finds the nearest free section to the right, else from the start or to the left, without running below zero |
| `Allocator.TurningLeftKeepsZone` | fs/f2fs/segment.c:836-859 | once the search has turned left the section found stands, whatever the zones in use: it is the last free one |
| `Victim.Scan` | fs/f2fs/gc.c:254-333 | the circular scan ends and never returns a barred section; when all dirty units may be looked at and costs cannot move, its choice has minimum cost over all eligible units wherever it began |
| `Victim.GetGcCost` | fs/f2fs/gc.c:201-244 | the cost of a segment under greedy, cost-benefit or SSR, with the moving mtime range |
| `Victim.CbPrefersEmptyAndOld` | fs/f2fs/gc.c:201-231 | the cost-benefit cost never rises when a section is emptier or older |
| `Victim.EnoughSearched` | fs/f2fs/gc.c:310-313 | the search bound can stop the scan early only when there are more dirty units than it allows |
| `SegmentManager.Manager.constructor` | fs/f2fs/segment.c:1959-2050 | mounting in place yields exactly the mounted state, with the invariant |
| `SegmentManager.Manager.UpdateSitEntry` | fs/f2fs/segment.c:653-690 | in-place update equals the state function, for both signs |
| `SegmentManager.Manager.LocateDirtySegment` | fs/f2fs/segment.c:439-462 | in-place filing equals the state function |
| `SegmentManager.Manager.RefreshSitEntry` | fs/f2fs/segment.c:692-700 | new block valid, old one invalid, both segments refiled: equals the state function |
| `SegmentManager.Manager.InvalidateBlocks` | fs/f2fs/segment.c:702-720 | equals the state function and keeps the invariant |
| `SegmentManager.Manager.TestAndFree` | fs/f2fs/segment.h:359-379 | equals the state function, section bit included |
| `SegmentManager.Manager.NextFreeBlkoff` | fs/f2fs/segment.c:929-945 | the first offset from the start given that is free in both maps, or blocks_per_seg |
| `SegmentManager.Manager.GetSsrVictim` | fs/f2fs/gc.c:254-333 | the SSR victim is listed dirty, outside the current sections, and has a hole |
| `SegmentManager.Manager.AllocateSegment` | fs/f2fs/segment.c:1015-1032 | the choice between a new segment and SSR, with a legal pick in every case |
| `SegmentManager.Manager.AllocateDataBlock` | fs/f2fs/segment.c:1161-1207 | hands out the log's next block, leaves the state the step function says, keeps the invariant; its bug checks cannot fire |
| `SegmentManager.Manager.AllocateNewSegment` | fs/f2fs/segment.c:1034-1042 | equals the state function |
| `SegmentManager.Manager.FlushSitEntries` | fs/f2fs/segment.c:1765-1811 | entry by entry, equals flushing everything dirty at once |
| `SegmentManager.Manager.SetPrefreeAsFree` | fs/f2fs/segment.c:581-590 | bit by bit, equals freeing all pre-free segments at once |
| `SegmentManager.Manager.ClearPrefreeSegments` | fs/f2fs/segment.c:592-630 | run by run the pre-free list is emptied; the runs returned cover exactly the segments it held |
| `SegmentManager.Manager.RecoverDataPage` | fs/f2fs/segment.c:1261-1302 | equals the state function and keeps the recovery invariant |
| `SegmentManager.ReadSit` | fs/f2fs/segment.c:1981-1996 | a segment's entry is the journal's if it has one there, else the one in the block in use |
| `SegmentManager.BuildSitEntries` | fs/f2fs/segment.c:1959-2006 | from a SIT with journal and twin blocks: every in-memory entry is the stored one, the journal overriding the blocks, and section counters come out as sums |
| `SegmentManager.InitFreeSegmap` | fs/f2fs/segment.c:2008-2024 | the free maps are those of the entries and logs |
| `SegmentManager.InitDirtySegmap` | fs/f2fs/segment.c:2026-2050 | partly valid segments that are not current are listed, by type, and nothing else |
| `ShadowTable.AddrInjective` | fs/f2fs/node.h:172-190 | no two (block, copy) pairs of the NAT or SIT area share an address |
| `ShadowTable.TwinIsOtherCopy` | fs/f2fs/node.h:192-204 | the next address of a copy is the other copy of the same block, for NAT's interleaving and SIT's halves |
| `ShadowTable.JournalPutStored` | fs/f2fs/segment.c:1585-1605 | journalling a key changes what is stored for it and nothing else; the journal stays within its capacity |
| `ShadowTable.SwitchStored` | fs/f2fs/node.c:103-130 | copying a block over its twin and toggling the bit changes nothing stored and touches only the copy not in use |
| `ShadowTable.SetEntryStored` | fs/f2fs/node.c:1876-1884 | overwriting an entry the journal does not shadow changes what is stored for its key only |
| `ShadowTable.SwitchKeepsOld` | fs/f2fs/segment.c:1613-1639 | switching a block not switched before leaves every old copy as it was |
| `ShadowTable.CrashSeesOld` | fs/f2fs/node.c:103-130 | until a new bitmap and journal are committed a crash reads exactly the old table, whichever new blocks have reached the device |
| `NatManager.Manager.GetNodeInfo` | fs/f2fs/node.c:346-394 | answers the logical map (cache, else journal, else current block) and at most adds a clean cache entry |
| `NatManager.Manager.TryToFreeNats` | fs/f2fs/node.c:324-341 | evictions of clean entries leave the logical map as it is |
| `NatManager.Manager.SetNodeAddr` | fs/f2fs/node.c:270-322 | the only operation that changes the logical map, at its own nid only; the version is bumped exactly when a node is removed, the checkpointed flag dropped exactly when it is removed or reserved, and the fsync marks are left on the inode's entry |
| `NatManager.Manager.RemoveNatsInJournal` | fs/f2fs/node.c:1777-1803 | spilling the journal into the cache leaves the logical map as it is and empties the journal |
| `NatManager.Manager.FlushNatEntrySet` | fs/f2fs/node.c:1823-1891 | a set goes to the journal if it fits, else to its twin block; what remains in it are exactly its reserved nids, so the bug check fires if and only if there is one |
| `NatManager.Manager.AdjustNatEntrySet` | fs/f2fs/node.c:1805-1821 | inserting a set keeps the sets in order of size |
| `NatManager.Manager.FlushNatEntries` | fs/f2fs/node.c:1896-1933 | with no reserved address left, afterwards nothing is dirty, what is stored is the unchanged logical map, the journal has not overflowed and every block current before is untouched |
| `NatState.SpillKeeps` | fs/f2fs/node.c:1777-1803 | emptying the journal once its nids are dirty in the cache changes no logical value |
| `NatState.RewriteKeeps` | fs/f2fs/node.c:270-322 | rewriting a dirty entry changes the logical map at that nid only |
| `SitTable.AddSitEntry` | fs/f2fs/segment.c:1672-1690 | a segment is counted in its block's set, which keeps its place among sets ordered by size |
| `SitTable.Manager.AddSitsInSet` | fs/f2fs/segment.c:1692-1701 | the sets count exactly the dirty segments, block by block |
| `SitTable.Manager.RemoveSitsInJournal` | fs/f2fs/segment.c:1703-1720 | the journal's segments become dirty and are counted; nothing that is stored for clean segments is lost |
| `SitTable.Manager.FlushSitEntries` | fs/f2fs/segment.c:1726-1828 | afterwards nothing is dirty, what is stored is exactly the in-memory entries, the journal has not overflowed, each block was switched at most once and every block current before is untouched |
| `SitTable.SetDone` | fs/f2fs/segment.c:1752-1819 | after a set the journal still has room for all that is dirty, or holds nothing of the sets to come |
| `CheckpointPack.PackRoundTrip` | fs/f2fs/checkpoint.c:980-1020 | a mount reads back exactly what the checkpoint wrote: both version bitmaps, orphans, both journals and every summary, compacted or not, with or without payload |
| `CheckpointPack.PackFits` | fs/f2fs/checkpoint.c:1111-1113 | with orphans capped at max_orphans a pack never exceeds its segment |
| `CheckpointPack.SummaryAddresses` | fs/f2fs/segment.h:686-691 | normal summaries are read (sum_blk_addr) from the addresses they were written to |
| `CheckpointPack.OrphanPagesRead` | fs/f2fs/checkpoint.c:465-555 | orphan blocks come out as many as GET_ORPHAN_BLOCKS says, numbered in order, none empty or over-full, and read back as the same list |
| `CheckpointPack.CpBlocksOfPack` | fs/f2fs/checkpoint.c:982-1014 | only the first and last block of a pack are checkpoint blocks |
| `CheckpointCommit.MountsCurrent` | fs/f2fs/checkpoint.c:609-676 | between checkpoints, whatever earlier or interrupted packs left behind, a mount finds exactly the current contents |
| `CheckpointCommit.ChoosesCurrent` | fs/f2fs/checkpoint.c:636-646 | get_valid_checkpoint picks the current pack, with versions compared round the clock |
| `CheckpointCommit.TornKeepsOld` | fs/f2fs/checkpoint.c:982-1033 | a pack cut short anywhere before its last block, any number of times, leaves the area standing for the old checkpoint |
| `CheckpointCommit.WholePackCommits` | fs/f2fs/checkpoint.c:1009-1033 | the last block of the pack makes the area stand for the new checkpoint |
| `CheckpointCommit.TornPackValidIff` | fs/f2fs/checkpoint.c:557-607 | a torn pack passes validate_checkpoint exactly when the stale block at its last place is a checkpoint block of the same version |
| `CheckpointCommit.CrashAtomic` | fs/f2fs/checkpoint.c:896-1040 | after a crash anywhere in a checkpoint the device stands for the old NAT and SIT or for the new ones, both from the same checkpoint, and the mount says which |
| `CheckpointCommit.RunAtomic` | fs/f2fs/checkpoint.c:1046-1096 | after any sequence of completed and interrupted checkpoints a mount finds the one committed last, and NAT and SIT hold exactly what they held then |
| `CheckpointManager.CheckpointArea.WriteOrphanInodes` | fs/f2fs/checkpoint.c:496-555 | page by page, writes the orphan blocks of the pack |
| `CheckpointManager.CheckpointArea.DoCheckpoint` | fs/f2fs/checkpoint.c:978-1014 | the whole pack lands in the segment of its version's parity and nothing else is touched |
| `CheckpointManager.CheckpointArea.ValidateCheckpoint` | fs/f2fs/checkpoint.c:557-607 | a pack is valid exactly when both its checkpoint blocks carry one version |
| `CheckpointManager.CheckpointArea.GetValidCheckpoint` | fs/f2fs/checkpoint.c:609-676 | computes the choice, which on any area kept by checkpoints is the current pack |
| `CheckpointManager.CheckpointArea.WriteCheckpoint` | fs/f2fs/checkpoint.c:1076-1085 | the area afterwards stands for the new contents at the next version, and a mount reads them |
| `Extents.InsertKeeps` | fs/f2fs/data.c:506-542 | inserting with both merges keeps the list sorted, disjoint and without mergeable neighbours |
| `Extents.InsertCaches` | fs/f2fs/data.c:506-542 | inserting adds exactly what the new extent says |
| `Extents.UpdatedKeeps` | fs/f2fs/data.c:638-718 | an update keeps the list in shape, and caches exactly what the cut leaves plus the new block |
| `Extents.UpdatedAgrees` | fs/f2fs/data.c:638-718 | with the right half at its true address, every cached offset still gives the file's block after the pointer changes |
| `Extents.AsWrittenAgreesIff` | fs/f2fs/data.c:670-677 | as written (no + 1 for the right half) agreement is kept if and only if no cached extent reaches 64 blocks beyond the offset updated |
| `Extents.AsWrittenFails` | fs/f2fs/data.c:670-677 | a 66-block extent whose first block is rewritten ends up cached one address too low |
| `Extents.RunAgrees` | fs/f2fs/data.c:638-718 | with the right half at its true address: after any sequence of pointer updates and evictions the extents are sorted, disjoint and merged, and agree with the file |
| `Extents.AsWrittenRunIff` | fs/f2fs/data.c:669-677 | as written: what is cached is true of the file throughout a run if and only if no update of it cuts an extent that reaches MIN_EXTENT_LEN blocks beyond it |
| `ExtentCache.KeptHalfIsLonger` | fs/f2fs/data.c:338-349 | the split keeps the longer half, never an empty one, and it says nothing new |
| `ExtentCache.InodeExtent.LookupExtentInfo` | fs/f2fs/data.c:267-294 | finds the extent exactly when it covers the offset |
| `ExtentCache.InodeExtent.UpdateExtentInfo` | fs/f2fs/data.c:296-362 | agreement with any file is kept; merges gain exactly the new block; a surviving extent that did not grow is at least 64 long; no update is reported only if nothing changed |
| `ExtentCache.ExtentTree.LookupExtentTree` | fs/f2fs/data.c:438-464 | finds the node holding the offset through the cached node or any search-tree shape, and caches it |
| `ExtentCache.ExtentTree.TryBackMerge` | fs/f2fs/data.c:466-485 | takes over the node before when it leads up to this one; the cached node stays in the tree |
| `ExtentCache.ExtentTree.TryFrontMerge` | fs/f2fs/data.c:487-504 | takes over the node after when this one leads up to it |
| `ExtentCache.ExtentTree.InsertExtentTree` | fs/f2fs/data.c:506-542 | for every tree shape the outcome is the insertion with both merges; without a place for a merged node the bug check fires, and nothing is inserted, if and only if some cached extent could be merged with |
| `ExtentCache.ExtentTree.UpdateExtentTree` | fs/f2fs/data.c:638-718 | removes, splits and inserts as specified, as written or corrected, with the tree in shape and the cached node in it; the bug check fires if and only if the extent cut keeps a right half and another starts where it ends, at the address that half is given to end with (never with the true address) |
| `ExtentCache.ExtentTree.PreserveExtentTree` | fs/f2fs/data.c:720-767 | what the inode keeps is true of any file the tree agrees with |
| `ExtentCache.NeverCorrected` | fs/f2fs/data.c:669-677 | with the right half at its true address no insertion without a place for a merged node meets a mergeable one |
| `ExtentCache.InjectiveTripsNone` | fs/f2fs/data.c:669-677 | nor as written, while the tree agrees with a file that uses no block twice |
| `ExtentCache.RunTripsBug` | fs/f2fs/data.c:669-677 | three as-written updates of one extent, its file injective throughout, the third of which trips the bug check |
| `NodePath.GetNodePath` | fs/f2fs/node.c:400-472 | fills both arrays with the block's path; gives up exactly on blocks beyond the tree's capacity |
| `NodePath.PathRoundTrip` | fs/f2fs/gc.c:470-488 | start_bidx_of_node(noffset[level]) + offset[level] = block, for symbolic fan-outs |
| `NodePath.DnodeIffLeaf` | fs/f2fs/node.h:300-316 | IS_DNODE holds of exactly the offsets at which some block's path ends, and every slot of such a node is the end of the path of the block start_bidx_of_node gives it |
| `NodePath.NodesNumberedApart` | fs/f2fs/node.h:279-299 | two paths share a node offset if and only if they pass through the same node |
| `NodePath.NextDnodeStartsLeaf` | fs/f2fs/f2fs.h:1415-1418 | PGOFS_OF_NEXT_DNODE is the start of the next leaf: up to it every block ends in the same leaf, at it a new one begins |
| `NodePath.MaxFileHasPaths` | fs/f2fs/super.c:802-820 | below max_file_size every block has a path, with inline xattrs or without |
| `RecoveryChain.CrashLeavesChain` | fs/f2fs/recovery.c:160-234 | after a crash that keeps any set of blocks the walk comes, in order, to the warm-node blocks written since, up to the first lost; it ends there if and only if that one does not hold an old block of the version, and else goes on from it |
| `RecoveryChain.StaleTailHarmless` | fs/f2fs/recovery.c:160-234 | a walk that runs on into left-over blocks of which none is fsync-marked finds and replays what it would have without them |
| `RecoveryChain.ChainUnique` | fs/f2fs/recovery.c:160-234 | the walk is determined by the device |
| `RecoveryChain.ChainNoRepeat` | fs/f2fs/recovery.c:160-234 | a walk that ends never comes to a block twice |
| `RecoveryChain.FindAllOk` | fs/f2fs/recovery.c:160-234 | after pass one the list holds each inode some page allows to be listed, once, with the address of its last fsync-marked page |
| `RecoveryChain.TwoPasses` | fs/f2fs/recovery.c:441-505 | recovery ends with the inode list empty, having replayed in chain order exactly the pages of listed inodes up to each one's last fsync-marked page |
| `RecoveryOwnership.AssignKeeps` | fs/f2fs/recovery.c:392-422 | with the HOT_DATA log's summaries asked too, re-pointing an index keeps every valid data block with exactly one owner: the old block is given up, the destination leaves its former owner, nothing else changes |
| `RecoveryOwnership.PointKeeps` | fs/f2fs/segment.c:1261-1302 | recover_data_page on a block not valid: no validity bit is set twice or cleared twice, and the summaries, moved between the logs' copies and the summary area, still name each block's owner |
| `RecoveryOwnership.ClaimableKept` | fs/f2fs/segment.c:1275-1280 | a destination in a data segment, or an idle empty one, stays so whatever is re-pointed before it |
| `RecoveryOwnership.AsWrittenKeepsIff` | fs/f2fs/recovery.c:267-274 | the loop as written leaves the HOT_DATA log out: a step keeps single ownership if and only if its destination is not a valid block of that log's segment whose entry in the summary area names another index than its owner; otherwise a bit already set is set again |
| `RecoveryOwnership.SecondClaimStale` | fs/f2fs/recovery.c:267-274 | the failing family: two indices given one block of a HOT_DATA segment, not valid till then, whose summary-area entry does not name the first |
| `RecoveryOwnership.TwoOwners` | fs/f2fs/recovery.c:267-274 | a mounted state and two writes after which two indices own one block |
| `RecoveryOwnership.AsWrittenRunIff` | fs/f2fs/recovery.c:392-422 | replay as written keeps single ownership at every step if and only if no destination is stale, and then does what the intended replay does |
| `RecoveryOwnership.AssignIsRun` | fs/f2fs/recovery.c:392-422 | a step of the intended replay is a run of the segment manager: the former owner's block dropped if it had one, then the block recovered |
| `RecoveryOwnership.ReplaySafe` | fs/f2fs/recovery.c:441-505 | so after any part of the replay the world is still good: a crash then finds every block the committed checkpoint needs |
| `RecoveryOwnership.ReplayClaims` | fs/f2fs/recovery.c:392-422 | seen through the pointers alone the intended replay claims block after block, taking each from whoever had it |
| `RecoveryOwnership.LastDestinationWins` | fs/f2fs/recovery.c:392-422 | after the intended replay each index ends at the last main-area block any replayed page gives it unless that block later went to another index, which then has it; untouched indices keep theirs on the same condition |
| `RecoveryChain.EndsIff` | fs/f2fs/recovery.c:172-230 | the walk ends if and only if it repeats no block in as many steps as the main area has blocks, and one |
| `RecoveryOwnership.Recovery.FindFsyncDnodes` | fs/f2fs/recovery.c:160-234 | in any number of turns of its loop: ended exactly if the walk came to fewer blocks, the list the specified one so far; with more turns than blocks, ended exactly if the walk ends |
| `RecoveryOwnership.Recovery.CheckIndexInPrevNodes` | fs/f2fs/recovery.c:247-344 | the owner named by the WARM_DATA or COLD_DATA log's copy, else by the summary area, is truncated exactly if it still points at the block |
| `RecoveryOwnership.Recovery.RecoverIndex` | fs/f2fs/recovery.c:392-422 | one index replayed in place is the specified step as written |
| `RecoveryOwnership.Recovery.DoRecoverData` | fs/f2fs/recovery.c:346-439 | a page's indices are replayed in order |
| `RecoveryOwnership.Recovery.RecoverData` | fs/f2fs/recovery.c:441-505 | pass two, in any number of turns, replays and drains the list as specified for the pages come to |
| `RecoveryOwnership.Recovery.RecoverFsyncData` | fs/f2fs/recovery.c:507-575 | both passes, for any device: with more turns than blocks it ends exactly if the walk does, and if not no pointer is touched; if it ends, the list ends empty, exactly the pages to replay are replayed in order, single ownership holds at every step if and only if no destination is stale, and then the outcome is the intended one |
| `XattrCodec.DecodeEntry` | fs/f2fs/xattr.h:57-77 | reading an encoded entry gives back its key, value and size, and it is not the terminator |
| `XattrCodec.HoldsUnique` | fs/f2fs/xattr.h:57-77 | a buffer holds one list of entries only |
| `XattrCodec.RemovedMap` | fs/f2fs/xattr.c:545-557 | taking an entry out removes exactly its key from the map |
| `XattrCodec.AppendedMap` | fs/f2fs/xattr.c:561-577 | appending an entry with a new key sets exactly that key |
| `XattrManager.CutHolds` | fs/f2fs/xattr.c:545-557 | the memmove and memset of a removal leave a well-formed buffer holding the other entries |
| `XattrManager.PasteHolds` | fs/f2fs/xattr.c:561-577 | writing an entry at the end leaves a well-formed buffer, terminator included, if it ends within MIN_OFFSET |
| `XattrManager.InlineHolds` | fs/f2fs/xattr.c:361-369 | a list that fits the inline area reads back without the node |
| `XattrManager.NewFooterHolds` | fs/f2fs/xattr.c:390-394 | whatever the node footer holds, the list read back is the same |
| `XattrManager.MoveUp` | fs/f2fs/xattr.c:553-556 | the overlapping move and the clearing have exactly the specified bytes |
| `XattrManager.XattrInode.ReadAllXattrs` | fs/f2fs/xattr.c:269-324 | the buffer read holds the inode's list, with or without a node, the header repaired if need be |
| `XattrManager.XattrInode.FindXattr` | fs/f2fs/xattr.c:253-267 | finds the entry with this key, or the terminator exactly when there is none |
| `XattrManager.XattrInode.WriteAllXattrs` | fs/f2fs/xattr.c:326-400 | afterwards the inode holds the buffer's list across both areas; ENOSPC exactly when a node is needed and no nid can be had, and then nothing has changed |
| `XattrManager.XattrInode.GetXattr` | fs/f2fs/xattr.c:402-442 | the value the map has, or ERANGE or ENODATA exactly when they apply |
| `XattrManager.XattrInode.SetXattr` | fs/f2fs/xattr.c:482-595 | on success the map has exactly this key set or removed; each of ERANGE, ENODATA, EEXIST and ENOSPC is reported exactly when it applies, and then no byte has changed |
| `Directory.RangesDisjoint` | fs/f2fs/dir.c:24-63 | the block ranges of distinct (level, bucket) pairs are disjoint |
| `DirBlock.FindTargetDentry` | fs/f2fs/dir.c:117-156 | finds the entry with this name and hash or says the block has none, and then how large its largest free run is |
| `DirBlock.RoomForFilename` | fs/f2fs/dir.c:453-475 | the first place with room for the name, or none exactly when there is none |
| `DirBlock.AddedHolds` | fs/f2fs/dir.c:477-494 | adding into a free run leaves every other entry's name and dentry as they are |
| `DirBlock.DeletedHolds` | fs/f2fs/dir.c:652-668 | deleting an entry leaves every other entry as it is |
| `Directory.Dir.FindInLevel` | fs/f2fs/dir.c:158-203 | finds the entry if it is in this level's bucket; the hint stays below the depth |
| `Directory.Dir.FindEntry` | fs/f2fs/dir.c:205-240 | finds exactly the listed names that lie in a bucket of their hash at some level, and where; in a valid directory that is agreement with the name to inode map |
| `Directory.Dir.AddLink` | fs/f2fs/dir.c:496-596 | on success the map has exactly this name added, at a level below the recorded depth; it fails only at full depth or when the name's buckets are full at every level from the one it started at |
| `Directory.Dir.DeleteEntry` | fs/f2fs/dir.c:652-691 | the map loses exactly this name; its block is freed exactly if no entry is left in it, and no other block changes |
| `Directory.Dir.ConvertInlineDir` | fs/f2fs/inline.c:341-390 | conversion keeps the listing, all in block 0, and leaves a valid directory if and only if every hash falls into the first bucket of level 0 |
| `Directory.ConversionRightIff` | fs/f2fs/inline.c:363-369 | conversion leaves every entry where a lookup finds it if and only if each hash falls into the first bucket of level 0 |
| `Directory.OneBucketAtLevelZero` | fs/f2fs/dir.c:24-30 | with i_dir_level 0 every hash does |
| `Directory.ConversionLosesOdd` | fs/f2fs/inline.c:363-369 | with i_dir_level 1 block 0 is in no bucket of an odd hash |
| `Directory.LookupAfterConversion` | fs/f2fs/inline.c:363-369 | after converting such a directory f2fs_find_entry misses a listed name of odd hash |
| `BitSearch.ReverseFfs` | fs/f2fs/segment.c:36-65 | the lowest-numbered set bit of a word in the MSB-first numbering |
| `BitSearch.FindRevNextZeroBit` | fs/f2fs/segment.c:126-176 | the first clear bit at or after the offset, for sizes of whole bytes |
| `FreeOffsets.NextFreeBlkoff` | fs/f2fs/segment.c:929-945 | on the bitmaps as words, the zero-bit search in their union finds the offset NextFree says for the bitmaps as sets |
| `FreeOffsets.FirstFree` | fs/f2fs/segment.c:929-945 | NextFree is the only offset that is the first free one |
| `BitSearch.FindRevNextBit` | fs/f2fs/segment.c:75-124 | as written, whatever it returns below the size is a set bit at or after the offset; it is the first one if and only if the search starts at a word, or the rest of the offset's byte has one, or the rest of its word has none |
| `BitSearch.NextBitMisses` | fs/f2fs/segment.c:95-99 | a word in which it misses a set bit |
| `Discard.Discards.AddDiscardEntry` | fs/f2fs/segment.c:483-506 | adds exactly this range, joined to the last entry when it continues it; the count is the total length |
| `Discard.Discards.AddDiscardAddrs` | fs/f2fs/segment.c:508-564 | every block added is in the segment and not valid in the running map; nothing is dropped |
| `SmallDiscards.CollectDiscards` | fs/f2fs/segment.c:1756-1790 | over all dirty segments, on bitmaps as words: every block collected is in the main area and not valid, which is what the runs let a checkpoint discard |
| `CompactSummaries.SlotsApart` | fs/f2fs/segment.c:1523-1547 | entries never overlap each other |
| `CompactSummaries.PagesAsPromised` | fs/f2fs/segment.c:737-762 | compacting uses exactly the pages npages_for_summary_flush promises |
| `CompactSummaries.Summaries.WriteCompactedSummaries` | fs/f2fs/segment.c:1498-1553 | the pages hold both journals and every kept entry, and are as many as the entries need |
| `CompactSummaries.Summaries.ReadCompactedSummaries` | fs/f2fs/segment.c:1340-1399 | gives back both journals and, log by log, exactly the entries kept |
| `FileTree.CutFileLeaves` | fs/f2fs/node.c:770-864 | cutting at a leaf keeps every leaf before it and none from it on |
| `FileTree.CutFileNodes` | fs/f2fs/node.c:639-765 | a node block goes exactly when all leaves below it come at or after the cut; the double indirect one also when the cut is in its first child and that child is missing |
| `Truncate.Inode.TruncateDataBlocksRange` | fs/f2fs/file.c:422-456 | clears the addresses from the offset on and lowers the block count by exactly those that were set |
| `Truncate.Inode.TruncateDnode` | fs/f2fs/node.c:617-637 | lowers the counts by the node and its data |
| `Truncate.Inode.TruncateIndirect` | fs/f2fs/node.c:639-708 | frees the children from an offset on, and the node itself when that is all of them |
| `Truncate.Inode.TruncateDoubleIndirect` | fs/f2fs/node.c:639-708 | the same one level up |
| `Truncate.Inode.TruncatePartialDouble` | fs/f2fs/node.c:710-765 | cuts the child the path runs through; a missing node on the way changes nothing |
| `Truncate.Inode.TruncateInodeBlocks` | fs/f2fs/node.c:770-864 | leaves exactly the tree cut at the leaf, with both counts again those of the tree |
| `Truncate.Inode.ClearAtCut` | fs/f2fs/file.c:505-541 | clears what shares a node with blocks to be kept, and says where the rest starts |
| `Truncate.Inode.TruncateBlocks` | fs/f2fs/file.c:490-565 | below the first whole block nothing changes, from it on nothing is mapped, exactly the node blocks with nothing to keep are freed, the counts are those of the tree; it gives up exactly when there is no leaf left to go on with |
| `Truncate.CutNodes` | fs/f2fs/node.c:770-864 | which direct, indirect and double indirect nodes remain, told by the first whole block |
| `Truncate.MaximumSizeOffTheEnd` | fs/f2fs/super.c:802-820 | truncating the largest file at its own size runs off the tree if the inode has inline xattrs, and without them if its last leaf is there |
| `Truncate.LastLeafOffTheEnd` | fs/f2fs/node.c:770-864 | a file and a cut inside its last leaf for which truncation runs off the tree |
| `Cleaning.MoveKeeps` | fs/f2fs/gc.c:521-544 | moving a block keeps what every pointer leads to, single ownership and the segment invariant, takes the block out of the victim section and lets nothing in |
| `Cleaning.NewSegmentElsewhere` | fs/f2fs/segment.c:797-884 | a new segment is never in the victim section, wherever the search starts |
| `Cleaning.CleanedTo` | fs/f2fs/segment.c:1101-1159 | cleaning sends data to the cold log, or to the hot one for directories or with two logs, and nodes to node logs: five logs at the most |
| `Cleaning.MoveCost` | fs/f2fs/segment.c:1161-1207 | a block written to any of the logs costs at most one of the room they have left, new segments counted in |
| `Cleaning.SectionFits` | fs/f2fs/gc.c:689-741 | as many free sections as a section has segments, and one more for each log written to but one, are room enough for all its blocks, however they are spread over the logs |
| `Cleaning.Cleaner.ChoosePick` | fs/f2fs/segment.c:1015-1032 | a log out of space finds a legal place outside the victim section |
| `Cleaning.Cleaner.MovePages` | fs/f2fs/gc.c:553-644 | one pass leaves valid exactly the blocks it could not get at |
| `Cleaning.Cleaner.GcSegment` | fs/f2fs/gc.c:394-461 | once errors stop, passes end with no valid block in the segment; contents are kept and the rest of the section is as it was, for node segments as for data segments |
| `Cleaning.Cleaner.GcSection` | fs/f2fs/gc.c:689-741 | cleaning all segments of a section keeps every content, allocates nothing inside it and leaves it without a valid block |

## Left out

* Page cache, bio merging, readahead, writeback flags, memory-allocation failures and locking primitives: a locked region is one step and a page its contents.
* In-place updates (rewrite_data_page, need_inplace_update) and the checkpoint-error and shutdown paths: they leave the out-of-place protocol.
* Mount options, sysfs, ioctls, tracing and the VFS tables.
* The checksum and the directory hash: a checkpoint block is one whose checksum is right, and the hash is any function of the name.
* acl.c: its size and count round trip is an easier version of the attribute list.
* 32- and 64-bit widths, except the checkpoint version, which wraps: segment numbers, counters and block indices are unbounded, so the overflow of very deep directory levels is not modelled.
* mtimes and written_valid_blocks in SIT entries: no property above depends on them; the victim scan takes mtimes as given.
* Red-black colours and the global extent list: a tree shape is any choice of roots, made anew after every change; which extents are evicted is left open.
* The (nid, slot) of a summary is written as the file index it stands for in RecoveryOwnership and Cleaning, so the three ways check_index_in_prev_nodes finds the owner's page are one lookup, node versions are not compared, and a summary naming a node that is gone truncates nothing instead of failing the recovery.
* Errors other than ENOENT while looking up an inode during roll-forward, and recover_dentry and inline data: only data indices are replayed.
* How the summaries of a checkpoint come to name each valid data block's owner: RecoveryOwnership, FsyncedPointers and Cleaning start from a state in which they do. Pointers that are reserved but unwritten count as none in ChainRuns.
* The order in which sync_node_pages writes the nodes of a victim segment, and what it writes besides: Cleaning moves them in the segment's order; the footer stamped on a node is not part of its content.
* Background cleaning and its yielding when sections run short.
* Node numbers in the pointer tree of FileTree and Truncate: the tree is a value, so two parents sharing a child is not expressible.
* The i_size test that lets a lookup in an empty directory return at once, and the file type byte of a dentry.
* f2fs_listxattr, and the failure of reading a page for attributes.
- Victim.Scan: minimum cost is stated for greedy and SSR, and for cost-benefit when every mtime already lies in the range, since the scan itself moves the range.
- BitSearch.FindRevNextZeroBit: exact for sizes of whole bytes; other sizes do not occur.
- CheckpointCommit.RunAtomic: blocks of a pack are taken to persist in order, with at most the next one torn, and fewer than 2^63 checkpoints to have been made.
- NatManager.Manager.FlushNatEntries: no address may be reserved but unwritten, which the checkpoint ensures by writing all dirty nodes first; FlushNatEntrySet says exactly what happens otherwise.
- ChainRuns.CrashWalk: a data page may not pass for a node block of the checkpoint's version or a later one; data that happens to look like one is not excluded by the format.
- SegmentManager.Manager.AllocateDataBlock: a free section must be left, as the bug checks of get_new_segment demand.
- Cleaning.Cleaner.GcSegment: reads may fail in any number of passes, but not for ever.
