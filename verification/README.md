# Models of e2fsprogs' repair code

A Dafny model of the parts of e2fsck that rewrite shared state while they
repair it, of the journal writer in debugfs, and of one cache in fsstress.  Code
that changes state step by step is modelled as classes and methods with loops,
each proved against a specification on values; the theorems are about those
specifications, over every input and every run.

| files | what |
|---|---|
| `Basics` | the types that several modules share |
| `Extents`, `ExtentEdit`, `ExtentUnsafe`, `ExtentTree`, `ExtentDisk`, `ExtentList` | extent lists as maps from logical to physical blocks; editing, sorting, merging, loading and rewriting them; their on-disk form |
| `FcScan`, `FcReplay`, `FcGuard` | fast-commit recovery: which prefix of the log is committed, and its replay through a one-inode extent cache |
| `DupBlocks`, `CloneSpec`, `PassState`, `PassTurns`, `Pass1b` | multiply-claimed blocks: counters, cloning and deleting, and what a whole pass comes to |
| `DirBlock`, `DirTrace`, `DirScan` | directory blocks as bytes: the salvage of corrupted entries, the scan as a sequence of entries met, and the scan loop |
| `JournalFormat`, `JournalBytes`, `JournalWriter`, `JournalScan` | descriptor, revoke and commit blocks: writing, parsing, their bytes, finding the head |
| `EaRefcount`, `EaReferences` | the table of attribute-block reference counts and its use in pass 1 |
| `EncryptedFiles`, `DirInfo`, `DirCache` | indexes and caches against plain maps |
| `Pass3` | connecting every directory to the root |

`dafny verify dfyconfig.toml` checks everything.

Lemmas carry `{:induction false}`: every induction is written out as a recursive
call.

## What the proofs turned up

Where the code does not do what is said of it, the model follows the code, and a
lemma says exactly when the promise is kept.

- Editing an extent list (`e2fsck/journal.c:493-567`) is map update except on three
  families of inputs, and on all of those the map is wrong (`ModifyExact`): an
  empty range at block 0, whose last block `ex_end` wraps to 2^64-1; an offset of
  2^31 or more into an extent that is kept, which overflows the `int offset`; and
  a list that is one emptied extent at block 0, left behind by the early return
  at line 450 after its only extent was deleted.  `DeleteThenAddIsWrong` is the run
  of two tags that meets the last one.
- The check `end < (1ULL << 32)` in `e2fsck/extents.c:96-102` adds two 32-bit numbers, so
  it is always true.  The lengths modelled stay below 2^32 in total.
- `clone_file` performs the deferred decrement after the block iteration even if
  that iteration failed (`e2fsck/pass1b.c:949`), although the comment at 770-780 rules
  that out.  If the pointer to a copy cannot be stored, one claim too many is taken
  off the counter.  `CloneBalanced` says from the state before for which files and
  stores that happens, `Pass1D` what a whole pass then comes to, and `LosingRun` is
  the smallest run in which a block is freed that a file still claims.  The counter
  of a block that lost its last claim is not lowered by `delete_file_block`, so it
  stays at 1.
- In pass 3 the restart with loop detection (`e2fsck/pass3.c:342-359`) begins at an
  inode that is already marked as done, so the walk ends at once and cycles stay
  as they are: all directories reach the root afterwards exactly if there was no
  cycle (`Pass`).
- `check_name` (`e2fsck/pass2.c:1608`) runs after the test for duplicates of `.` and `..`
  (line 1457), so an entry with the name `/` ends up with the name `.` (`SlashBecomesDot`).  `DotsLeft`
  says which entries do, and `CheckBlock` that the block has no others.
- The scan for the head of the journal can go round for ever (`ScanCanCircle`).  It
  does exactly if it is still going after one round more than the log has blocks
  (`EndsSoonOrNever`).
- The replay of a fast commit is right after every tag exactly if no range update
  of the run is one of the three families above (`RunExact`).
- Policies are numbered with 32 bits.  Numbers are shared exactly when there are
  more than 2^32 policies (`NumbersApart`).
- `dump_descriptor_block` ignores the high halves of block numbers
  (`DumpShowsLow32`).
- A stored attribute reference count of 0 wraps around when it is lowered
  (`e2fsck/pass1.c:2645`) and wraps back when the rest is taken off: the corrected
  count is right for that value as well.

## Model

| member | source | states |
|---|---|---|
| `FcReplay.Replayer.Recover` | e2fsprogs-1.46.5/e2fsck/journal.c:851-933 | Recovery fails exactly if the scan does or a committed range tag names an inode that is not on disk, and the replay never cancels.  Otherwise the maps are right after every committed tag if and only if every range update meets its guard; and then every inode on disk has its old map updated by exactly the range tags of the committed prefix, in order, and the extent cache is empty |
| `FcReplay.TagMeans` | e2fsprogs-1.46.5/e2fsck/journal.c:799-844 | A tag block by block, from its fields as they stand in the log: an addition maps its blocks in order, as unwritten exactly if the 16-bit length is above 0x8000, a deletion takes its blocks away, and nothing else changes |
| `ExtentDisk.WritableExact` | e2fsprogs-1.46.5/lib/ext2fs/extent.c:853-866 | The pieces written are exactly those whose length the on-disk form can hold: 16 bits, with the length of an unwritten extent raised by 0x8000, read back as they were |
| `ExtentDisk.RewrittenReadBack` | e2fsprogs-1.46.5/e2fsck/extents.c:230-267 | Every piece written for a list fits the on-disk fields and is read back |
| `ExtentDisk.DecodeApart` | e2fsprogs-1.46.5/lib/ext2fs/extent.c:1797-1816 | On-disk extents that differ decode to extents that differ, and encoding is the inverse |
| `FcScan.ScanFails` | e2fsprogs-1.46.5/e2fsck/journal.c:340-378 | The scan fails exactly at a HEAD that is not accepted, or at another tag not accepted with no TAIL accepted before it; which error it is |
| `FcScan.GroupAccepted` | e2fsprogs-1.46.5/e2fsck/journal.c:340-357 | A group of tags is committed by the TAIL behind it exactly if that has the expected id and the checksum over the group, from 0, and itself |
| `FcReplay.RunExact` | e2fsprogs-1.46.5/e2fsck/journal.c:894-927 | Over any run of tags, with any order qsort may leave: with ranges inside the address ranges, the maps are right after every tag if and only if each range update of the run meets its guard |
| `FcReplay.StepExact` | e2fsprogs-1.46.5/e2fsck/journal.c:799-927 | One tag on the extent cache is one step of the machine over maps if its guard is met; and, for a range inside the address ranges, leaves a wrong map if it is not |
| `FcReplay.RunRefines` | e2fsprogs-1.46.5/e2fsck/journal.c:894-927 | A run that meets its guards refines the run over maps, the cache included |
| `ExtentUnsafe.ModifyExact` | e2fsprogs-1.46.5/e2fsck/journal.c:493-567 | The list edit is map update (the range removed, the new extent put in) if and only if the input is safe: no wrap of the last block of an empty range or of an emptied extent at block 0, no overflow of the `int` offset |
| `ExtentUnsafe.UnsafeIsWrong` | e2fsprogs-1.46.5/e2fsck/journal.c:398-567 | On every other input the resulting map is wrong |
| `ExtentEdit.ModifyIsUpdate` | e2fsprogs-1.46.5/e2fsck/journal.c:493-567 | On safe inputs: the new map, and the list is a normal form again, for every pattern of overlap |
| `ExtentEdit.PunchMaps` | e2fsprogs-1.46.5/e2fsck/journal.c:500-551 | The hole loop removes exactly the range from the map and keeps every other block where it was |
| `ExtentEdit.PunchSorted` | e2fsprogs-1.46.5/e2fsck/journal.c:500-551 | What the hole loop leaves is sorted and disjoint, with the range free |
| `ExtentEdit.StrippedWellFormed` | e2fsprogs-1.46.5/e2fsck/journal.c:457-472 | Any permutation ordered as qsort leaves it, cut at the first empty extent, is the sorted list of the non-empty extents |
| `ExtentEdit.MergedNormal` | e2fsprogs-1.46.5/e2fsck/journal.c:474-489 | Merging keeps the map and leaves no two mergeable neighbours |
| `ExtentEdit.SortMergeNormal` | e2fsprogs-1.46.5/e2fsck/journal.c:446-490 | Sorting and merging any list of disjoint extents gives the normal form of its map |
| `ExtentEdit.BitmapAccounting` | e2fsprogs-1.46.5/e2fsck/journal.c:508-513 | For any bitmap, blocks shared or not: one edit clears the bits of exactly the blocks that were mapped in the range and are not mapped afterwards, sets those mapped afterwards, and leaves every other bit alone |
| `ExtentEdit.LoneEmptyAtZero` | e2fsprogs-1.46.5/e2fsck/journal.c:450-451 | The early return for fewer than two extents leaves an emptied extent in place, which an empty edit behind it leaves as it is |
| `Extents.NormalFormUnique` | e2fsprogs-1.46.5/e2fsck/journal.c:474-489 | Two normal forms with the same map are the same list up to unrelated flag bits |
| `Extents.NormalFormOfMap` | e2fsprogs-1.46.5/e2fsck/journal.c:474-489 | The result depends only on the map: equal maps, equal lists |
| `Extents.BlockMapMaps` | e2fsprogs-1.46.5/e2fsck/journal.c:398-399 | The map of a sorted list says of a block what the extent covering it says |
| `ExtentLists.ExtentList.MakeRoom` | e2fsprogs-1.46.5/e2fsck/journal.c:401-418 | Opens a slot at the index, with every entry from there moved up by one |
| `ExtentLists.ExtentList.StripEmpty` | e2fsprogs-1.46.5/e2fsck/journal.c:457-465 | The array after the first sort, cut at the first empty extent, holds the non-empty extents |
| `ExtentLists.ExtentList.SortAndMerge` | e2fsprogs-1.46.5/e2fsck/journal.c:446-490 | The in-place sort, strip and merge compute one of the allowed results of the specification |
| `ExtentLists.ExtentList.MergeNeighbours` | e2fsprogs-1.46.5/e2fsck/journal.c:474-489 | The in-place merge loop computes the merged list |
| `ExtentLists.ExtentList.CutExtent` | e2fsprogs-1.46.5/e2fsck/journal.c:501-551 | One round of the hole loop: split, clear, trim front, trim back or leave, with the bitmap change |
| `ExtentLists.ExtentList.PunchHole` | e2fsprogs-1.46.5/e2fsck/journal.c:500-551 | The hole loop over the growing array computes the specification and unmarks what it says |
| `ExtentLists.ExtentList.MarkAll` | e2fsprogs-1.46.5/e2fsck/journal.c:560-563 | Marks the physical blocks of every extent |
| `ExtentLists.ExtentList.ModifyRange` | e2fsprogs-1.46.5/e2fsck/journal.c:493-567 | The whole edit in place: list and bitmap as the specification relates them to the old ones; the map is the updated one if and only if the input is safe |
| `ExtentLists.ExtentList.Load` | e2fsprogs-1.46.5/e2fsck/extents.c:61-139 | Reading a tree appends its leaves, joining where they continue the last extent, and frees the internal nodes |
| `ExtentLists.ExtentList.Rewrite` | e2fsprogs-1.46.5/e2fsck/extents.c:199-267 | The insert loop with its `i--` terminates and writes the pieces of the specification |
| `ExtentTree.LoadNormal` | e2fsprogs-1.46.5/e2fsck/extents.c:91-128 | Loading a sorted tree yields the normal form of its map |
| `ExtentTree.RewrittenSameMap` | e2fsprogs-1.46.5/e2fsck/extents.c:230-267 | The pieces written have the same map, are sorted, not empty and within the length limits of initialized and uninitialized extents |
| `ExtentTree.RewriteRoundTrip` | e2fsprogs-1.46.5/e2fsck/extents.c:230-267 | Loading what was written gives the normal form of what was held |
| `ExtentTree.FindBlocksMap` | e2fsprogs-1.46.5/e2fsck/extents.c:141-197 | From the data blocks reported in increasing order, with address blocks between them, the list built has exactly the reported map, in normal form |
| `ExtentLists.ExtentList.CollectBlocks` | e2fsprogs-1.46.5/e2fsck/extents.c:141-197 | The walk of a block-mapped file in place: exactly the address blocks are freed, and the list maps exactly the data blocks |
| `FcReplay.ModifyRefines` | e2fsprogs-1.46.5/e2fsck/journal.c:493-567 | One update, said of the maps only, including when an emptied extent at block 0 is left |
| `FcReplay.EmptiedAfter` | e2fsprogs-1.46.5/e2fsck/journal.c:450-451 | Exactly which updates leave an emptied extent at block 0 |
| `FcReplay.SpecRunApplies` | e2fsprogs-1.46.5/e2fsck/journal.c:799-844 | Caching and flushing do not show: the maps are the tags applied in order |
| `FcReplay.TailFlushes` | e2fsprogs-1.46.5/e2fsck/journal.c:920-921 | A run that ends with a TAIL leaves nothing cached |
| `FcReplay.Replayer.Flush` | e2fsprogs-1.46.5/e2fsck/journal.c:600-609 | The cached list is written back and forgotten unless it is the next inode's |
| `FcReplay.Replayer.ReadExtents` | e2fsprogs-1.46.5/e2fsck/journal.c:581-590 | Reading caches the list of the inode, which is empty if there is nothing to read; it fails exactly then |
| `FcReplay.ReadRefines` | e2fsprogs-1.46.5/e2fsck/journal.c:581-590 | Reading keeps every map |
| `FcReplay.FlushRefines` | e2fsprogs-1.46.5/e2fsck/journal.c:600-609 | A flush keeps every map, and empties the cache unless the next inode is the cached one |
| `FcReplay.MapSafeIffSafe` | e2fsprogs-1.46.5/e2fsck/journal.c:493-567 | The guard over maps is the guard over the cached list, whatever list of that map is cached |
| `FcReplay.Replayer.HandleRange` | e2fsprogs-1.46.5/e2fsck/journal.c:799-844 | Flush, read and edit are a step of the machine; the handler fails exactly if the inode is neither cached nor on disk |
| `FcReplay.Replayer.ReplayTag` | e2fsprogs-1.46.5/e2fsck/journal.c:903-927 | Every kind of tag takes its step; the result is Canceled exactly for an unknown tag and an error of reading exactly for an inode that is not on disk |
| `FcReplay.Replayer.ReplayBlock` | e2fsprogs-1.46.5/e2fsck/journal.c:894-933 | A block is replayed up to the number of committed tags left, or to the first tag that fails |
| `FcReplay.Replayer.ReplayPass` | e2fsprogs-1.46.5/e2fsck/journal.c:865-933 | The blocks in order are replayed as one stream of committed tags, and no more |
| `FcGuard.AddsAreSafe` | e2fsprogs-1.46.5/e2fsck/journal.c:799-821 | A log that only adds non-empty ranges ending below 2^31 meets the guard, whatever the inodes map |
| `FcGuard.CalmIsSafe` | e2fsprogs-1.46.5/e2fsck/journal.c:799-844 | So does a log with deletions, if between a deletion from block 0 and the next range of the same inode there is a tag that flushes the cache |
| `FcGuard.DeleteThenAddIsWrong` | e2fsprogs-1.46.5/e2fsck/journal.c:450-451 | Deleting the one extent of a file from block 0 and adding a range to the same cached inode always gives a wrong map |
| `FcGuard.DeleteThenAddIsUnsafe` | e2fsprogs-1.46.5/e2fsck/journal.c:826-844 | The guard of a replay rejects that run |
| `FcScan.CommittedIsLatestTail` | e2fsprogs-1.46.5/e2fsck/journal.c:340-357 | The committed length is 0 or the position of the latest accepted TAIL, and every earlier TAIL was accepted too: a group of tags between TAILs is replayed whole or not at all |
| `FcScan.ScanState.ScanTag` | e2fsprogs-1.46.5/e2fsck/journal.c:313-378 | One tag: counters and checksum over exactly the bytes since the previous TAIL, and the verdict |
| `FcScan.ScanState.ScanBlock` | e2fsprogs-1.46.5/e2fsck/journal.c:278-383 | A block at the expected offset extends the accepted prefix or ends the scan; a block elsewhere is refused |
| `FcScan.ScanState.ScanPass` | e2fsprogs-1.46.5/e2fsck/journal.c:278-383 | Over any blocks: the count of tags to replay is that of the committed prefix, and the result that of the first tag not accepted |
| `Pass1b.ResolveAll` | e2fsprogs-1.46.5/e2fsck/pass1b.c:289-640 | The three passes with every question answered yes and every pointer stored: no block is claimed twice, none of the claimed ones is metadata, a claimed block marked before is still marked, and every file reads as before or is gone; with a free block for every copy none is gone |
| `Pass1b.Checker.Pass1D` | e2fsprogs-1.46.5/e2fsck/pass1b.c:497-624 | For any answers and any stores that fail, what is left is a function of the state before the pass, and by it: the books are right if and only if each lost claim is the only one on its block; a claimed block is still marked if and only if it is metadata or has a claim that is not lost; with every question answered yes ownership is exclusive if and only if the books are right.  A file of which no block is metadata or claimed again at its turn keeps its pointers, whatever the answers; one whose deletion is declined keeps its contents, and its pointers if the clone is declined too; and with deletions only, the files that stay are told from the files before |
| `PassTurns.OnlyLastStay` | e2fsprogs-1.46.5/e2fsck/pass1b.c:497-624 | With every clone declined and every deletion accepted the files that stay are those that share no block with a later file, with themselves or with the metadata |
| `Pass1b.LooksAlone` | e2fsprogs-1.46.5/e2fsck/pass1b.c:531-566 | The listed blocks of an inode look exclusive exactly if none of its blocks is metadata or has another claim shown |
| `Pass1b.AloneShares` | e2fsprogs-1.46.5/e2fsck/pass1b.c:552-571 | An inode that is listed and alone now shared a block with another one before, so that it is left |
| `Pass1b.LosingRun` | e2fsprogs-1.46.5/e2fsck/pass1b.c:949-961 | Two files sharing one block, and a pointer that cannot be stored: the clone and the deletion of the first free the block that the second still claims |
| `Pass1b.Checker.ResolveInode` | e2fsprogs-1.46.5/e2fsck/pass1b.c:523-622 | What is done with one inode: left whatever the answers if none of its blocks is metadata or has another claim shown; otherwise cloned, or deleted, also if a store failed |
| `Pass1b.Checker.Inspect` | e2fsprogs-1.46.5/e2fsck/pass1b.c:531-566 | Whether an inode may stay as it is, and the set of inodes it shares with, each once |
| `Pass1b.Checker.CloneBalanced` | e2fsprogs-1.46.5/e2fsck/pass1b.c:914-961 | Where the books are right they stay so over a clone if and only if no pointer needs a copy, is not to metadata, has a free block, is not stored, and comes behind none that failed |
| `CloneSpec.CloneLoses` | e2fsprogs-1.46.5/e2fsck/pass1b.c:914-961 | A clone loses a claim if and only if there is such a pointer in the state before it |
| `CloneSpec.LostThenDeleted` | e2fsprogs-1.46.5/e2fsck/pass1b.c:685-755 | The file deleted after that: its claims are gone, one of the others is not shown, and if it was the only other one the block is free but claimed |
| `CloneSpec.RunLosesNothing` | e2fsprogs-1.46.5/e2fsck/pass1b.c:497-624 | A pass whose pointers can all be stored loses nothing |
| `PassState.BooksRight` | e2fsprogs-1.46.5/e2fsck/pass1b.c:914-961 | At any point of the pass the books are right if and only if each lost claim is the only one on its block |
| `PassState.PassStored` | e2fsprogs-1.46.5/e2fsck/pass1b.c:897-899 | A pointer stored to a copy keeps what holds in the pass, the old claim waiting for its decrement |
| `PassState.PassDeleted` | e2fsprogs-1.46.5/e2fsck/pass1b.c:685-755 | A deletion keeps what holds in the pass, for books that are right or not |
| `Pass1b.Checker.CloneFile` | e2fsprogs-1.46.5/e2fsck/pass1b.c:914-961 | What the clone leaves is what the function of the state before it says; the contents stay |
| `Pass1b.Checker.CloneBlock` | e2fsprogs-1.46.5/e2fsck/pass1b.c:789-912 | One callback: the deferred decrement, then a copy; the books show the claim whose decrement is deferred |
| `Pass1b.Checker.CopyTo` | e2fsprogs-1.46.5/e2fsck/pass1b.c:885-901 | The copy goes to a block nobody claims, and neither the old nor the new pointers read differently |
| `Pass1b.Checker.NewBlock` | e2fsprogs-1.46.5/e2fsck/pass1b.c:853-858 | The first block free in the bitmap, and none only if none is free |
| `Pass1b.Checker.DeferredDec` | e2fsprogs-1.46.5/e2fsck/pass1b.c:781-787 | The decrement drops exactly the saved claim |
| `Pass1b.Checker.AbortClone` | e2fsprogs-1.46.5/e2fsck/pass1b.c:949-961 | After an aborted iteration the decrement still happens: the claim of the pointer that could not be stored is lost |
| `Pass1b.Checker.DecrementBadcount` | e2fsprogs-1.46.5/e2fsck/pass1b.c:630-640 | The counter and the duplicate bit after one claim less |
| `Pass1b.Checker.DeleteBlock` | e2fsprogs-1.46.5/e2fsck/pass1b.c:642-683 | The claim shown is dropped, and the block freed exactly if the counters show no other, whether they are right or not |
| `Pass1b.Checker.DeleteFile` | e2fsprogs-1.46.5/e2fsck/pass1b.c:685-755 | The blocks freed are exactly those of which the counters show no other claim, also where books are wrong |
| `Pass1b.Checker.Pass1B` | e2fsprogs-1.46.5/e2fsck/pass1b.c:289-373 | From the duplicate bitmap the books of all claims, for each inode the list of its duplicate blocks, and for each of those the list of the inodes that claim it |
| `Pass1b.Checker.ListBlock` | e2fsprogs-1.46.5/e2fsck/pass1b.c:375-428 | A duplicate block is submitted, any other is not |
| `Pass1b.Checker.Pass1` | e2fsprogs-1.46.5/e2fsck/pass1.c:2291-2322 | The two bitmaps: what is claimed, and what is claimed more than once |
| `Pass1b.UnsharedExclusive` | e2fsprogs-1.46.5/e2fsck/pass1b.c:568-611 | Books that balance and no pointer to a duplicate block mean exclusive ownership |
| `DupBlocks.LostClaimIsWrong` | e2fsprogs-1.46.5/e2fsck/pass1b.c:949-955 | A counter lowered for a claim that is still there cannot be right |
| `DupBlocks.ClaimedMove` | e2fsprogs-1.46.5/e2fsck/pass1b.c:897-899 | Storing a new pointer moves one claim |
| `DupBlocks.TotalInMove` | e2fsprogs-1.46.5/e2fsck/pass1b.c:826-901 | Each copy leaves one pointer fewer to copy |
| `DirScan.CheckBlock` | e2fsprogs-1.46.5/e2fsck/pass2.c:1316-1720 | For any bytes the scan ends, with a chain of valid entries that covers the block exactly, every one in use with a clean name, and `.` first in the first block unless its inode number is rejected.  The entries in the end are those the scan met, each as the checks left it; a second entry of a first block is `..`; and of the later ones exactly those have the name `.` or `..` whose name became that.  Behind a stretch of valid entries the one due is met: a valid one, one that overruns the block but whose name fits, the one behind a hole, the one to which a bad entry leads on.  Later entries keep their inode exactly if they stay, and what is in use shows its type.  A block with nothing to repair is not changed |
| `DirTrace.DueIsMet` | e2fsprogs-1.46.5/e2fsck/pass2.c:771-851 | In a block that is good up to some place the entry due there is met, with its inode, type and name |
| `DirTrace.StaysExact` | e2fsprogs-1.46.5/e2fsck/pass2.c:1418-1462 | On the bytes: which entries behind the first two are not cleared |
| `DirTrace.InodesAtEnd` | e2fsprogs-1.46.5/e2fsck/pass2.c:1316-1720 | In the end these have their inode, and the others none |
| `DirTrace.TypesAtEnd` | e2fsprogs-1.46.5/e2fsck/pass2.c:1589-1590 | Every entry in use shows the type it should |
| `DirBlock.SalvageIs` | e2fsprogs-1.46.5/e2fsck/pass2.c:771-851 | A salvage byte by byte: an entry that overruns the block, whose name fits, has no NUL and whose inode exists, ends with the block; what is behind a hole of 8 bytes moves up; else the previous entry absorbs up to where the record length leads or to the end; else the block is emptied |
| `DirTrace.DotsLeft` | e2fsprogs-1.46.5/e2fsck/pass2.c:1418-1462 | An entry behind the first two is in use and named `.` or `..` after its checks if and only if it stays and its name, of one or two bytes, was neither but had only dots, slashes and NULs |
| `DirTrace.DotsAtEnd` | e2fsprogs-1.46.5/e2fsck/pass2.c:1316-1720 | So it is with the names in the whole block in the end |
| `DirTrace.SlashBecomesDot` | e2fsprogs-1.46.5/e2fsck/pass2.c:1457-1608 | The block with one entry named `/`: in the end its name is `.` |
| `DirTrace.SecondEntry` | e2fsprogs-1.46.5/e2fsck/pass2.c:1360-1395 | A first block has a second entry if and only if behind its `.` the scan comes to a valid entry; else what was there was absorbed |
| `DirTrace.DotDotAtEnd` | e2fsprogs-1.46.5/e2fsck/pass2.c:480-525 | The second entry of a first block is `..` in the end, and in use unless its inode number is rejected |
| `DirTrace.KeptSalvaged` | e2fsprogs-1.46.5/e2fsck/pass2.c:771-851 | A salvage keeps every entry met: offset, inode, type and name |
| `DirTrace.KeptChecked` | e2fsprogs-1.46.5/e2fsck/pass2.c:1418-1686 | The checks on the next entry keep all entries met before it, and add it |
| `DirScan.SalvageDirectory` | e2fsprogs-1.46.5/e2fsck/pass2.c:771-851 | The in-place salvage does, byte by byte, what is due |
| `DirScan.CheckEntry` | e2fsprogs-1.46.5/e2fsck/pass2.c:1418-1609 | The checks on a valid entry: which ones clear its inode, early or after its type and name were changed, and what else they change; an entry with nothing to repair is not changed |
| `DirScan.CheckDot` | e2fsprogs-1.46.5/e2fsck/pass2.c:401-473 | The first entry becomes `.` of the directory; of a longer one the rest is split off as an unused entry up to its old end, or left as it is if it looks like `..` |
| `DirScan.CheckDotDot` | e2fsprogs-1.46.5/e2fsck/pass2.c:480-525 | The second entry is made `..` where it was not, within its record length |
| `DirScan.CheckName` | e2fsprogs-1.46.5/e2fsck/pass2.c:530-549 | Exactly the slashes and NULs of the name become dots |
| `DirBlock.SalvageProgress` | e2fsprogs-1.46.5/e2fsck/pass2.c:771-851 | Each salvage moves the offset, makes the entry there valid, or brings the last non-zero byte closer: the last also when an 8-byte hole is covered and the offset stays |
| `DirBlock.CoverHoleShrinks` | e2fsprogs-1.46.5/e2fsck/pass2.c:801-806 | Covering an 8-byte hole brings the last byte that is not zero closer |
| `DirBlock.SalvageScanned` | e2fsprogs-1.46.5/e2fsck/pass2.c:825-851 | After a salvage the entries before the offset are a chain again |
| `DirBlock.SalvageKeepsEntry` | e2fsprogs-1.46.5/e2fsck/pass2.c:771-851 | A salvage never changes the inode or the name of an entry already accepted, and keeps it in the chain |
| `DirBlock.SalvageKeepsClean` | e2fsprogs-1.46.5/e2fsck/pass2.c:771-851 | A salvage brings no unclean name into the chain |
| `DirBlock.AcceptKeepsClean` | e2fsprogs-1.46.5/e2fsck/pass2.c:1681-1686 | Accepting a clean entry adds it and no other |
| `JournalScan.WriteAndFind` | e2fsprogs-1.46.5/debugfs/do_journal.c:499-535 | A transaction written to a clean journal, or behind any number of committed ones without touching them, is found again if the block behind it is not read as the next one: the head is the block behind its commit block, or the first block if that was the last of the ring, and the next number one higher |
| `JournalScan.ChainFound` | e2fsprogs-1.46.5/debugfs/do_journal.c:676-741 | Any number of committed transactions is scanned over exactly, around the end of the ring as well |
| `JournalScan.EndsSoonOrNever` | e2fsprogs-1.46.5/debugfs/do_journal.c:676-741 | The scan has ended after one round more than the log has blocks, or it never ends; and its result does not depend on how long it is run |
| `JournalScan.TransactionFound` | e2fsprogs-1.46.5/debugfs/do_journal.c:676-741 | A committed transaction on consecutive places of the ring, wherever its end falls, is scanned over exactly: the head is then the place behind its commit block |
| `JournalScan.WrapPlace` | e2fsprogs-1.46.5/debugfs/do_journal.c:616-620 | The macro goes on by any number of places up to the whole ring, with places counted modulo its length |
| `JournalScan.FindHead` | e2fsprogs-1.46.5/debugfs/do_journal.c:651-755 | Behind any number of committed transactions, around the end of the ring too, the head is the place behind the last commit block; the scan is said to go on if and only if it never ends; the result is stored only if there was no error |
| `JournalScan.ScanCanCircle` | e2fsprogs-1.46.5/debugfs/do_journal.c:686-741 | A ring full of revoke blocks with one number keeps the scan going for ever |
| `JournalWriter.Journal.Write` | e2fsprogs-1.46.5/debugfs/do_journal.c:499-535 | Blocks, revokes and commit in order: a scan reads both lists back; nothing outside is touched; each refusal exactly when it is due; with 64-bit numbers or a filesystem below 2^32 blocks the numbers read are those of the lists |
| `JournalWriter.Transaction.constructor` | e2fsprogs-1.46.5/debugfs/do_journal.c:438-464 | A transaction starts at the first block of a clean journal, else at its head |
| `JournalWriter.Transaction.AddBlocks` | e2fsprogs-1.46.5/debugfs/do_journal.c:264-411 | The descriptors written read back as the list, in order, each tag with the journal block that holds its data |
| `JournalWriter.Transaction.AddRevokes` | e2fsprogs-1.46.5/debugfs/do_journal.c:160-262 | The revoke blocks written read back as the revoke list, for any length |
| `JournalFormat.DescriptorRoundTrip` | e2fsprogs-1.46.5/debugfs/do_journal.c:331-389 | A descriptor that is full or ends with the last-tag flag parses to exactly the tags placed in it, with the UUID gap behind the first |
| `JournalFormat.RevokeRoundTrip` | e2fsprogs-1.46.5/debugfs/logdump.c:724-754 | A revoke block parses to exactly the entries placed in it, 4 or 8 bytes wide, with or without a checksum tail |
| `JournalBytes.DescriptorBytes` | e2fsprogs-1.46.5/debugfs/do_journal.c:331-389 | The tags of a descriptor as bytes: 8 to 16 each, behind each other with 16 bytes of UUID behind the first, clear of the checksum tail, and what a reader of the bytes finds |
| `JournalBytes.TagBack` | e2fsprogs-1.46.5/lib/ext2fs/kernel-jbd.h:138-152 | A tag is read back from its bytes: number, low half first and high half behind the flags, and flags |
| `JournalBytes.RevokeBlockBytes` | e2fsprogs-1.46.5/debugfs/do_journal.c:200-255 | The entries of a revoke block as bytes: 4 or 8 each, clear of the checksum tail, with the byte count, and what a reader of the bytes finds |
| `JournalFormat.CountTags` | e2fsprogs-1.46.5/debugfs/do_journal.c:624-649 | The number of tags a reader finds |
| `JournalFormat.DumpDescriptor` | e2fsprogs-1.46.5/debugfs/logdump.c:648-706 | The dumper finds the same tags, with the low halves of their block numbers |
| `JournalFormat.DumpShowsLow32` | e2fsprogs-1.46.5/debugfs/logdump.c:690-698 | A dump shows the numbers written if and only if they fit into 32 bits |
| `JournalFormat.DumpRevoke` | e2fsprogs-1.46.5/debugfs/logdump.c:709-754 | The dumper reads the entries up to the byte count, or to the end of the block |
| `JournalFormat.ScansConcat` | e2fsprogs-1.46.5/debugfs/do_journal.c:676-741 | Two stretches of the log scanned in one go read as one behind the other |
| `EaRefcount.Table.GetEntry` | e2fsprogs-1.46.5/e2fsck/ea_refcount.c:154-206 | Through cursor, search, collapse with retry and growth: the entry of the key, no count changed |
| `EaRefcount.Table.CursorSearch` | e2fsprogs-1.46.5/e2fsck/ea_refcount.c:174-193 | The cursor is only a short cut to what the binary search finds |
| `EaRefcount.Table.Collapse` | e2fsprogs-1.46.5/e2fsck/ea_refcount.c:87-106 | In place, the entries with a count in their order |
| `EaRefcount.Table.Insert` | e2fsprogs-1.46.5/e2fsck/ea_refcount.c:112-146 | A new entry with count 0, growing by 100 when full; no count changes |
| `EaRefcount.Table.Fetch` | e2fsprogs-1.46.5/e2fsck/ea_refcount.c:208-220 | The count of the key, and no count changes |
| `EaRefcount.Table.Increment` | e2fsprogs-1.46.5/e2fsck/ea_refcount.c:222-235 | The count one higher (modulo its width), every other unchanged |
| `EaRefcount.Table.Decrement` | e2fsprogs-1.46.5/e2fsck/ea_refcount.c:237-251 | The count one lower, an error exactly if it was 0 |
| `EaRefcount.Table.Store` | e2fsprogs-1.46.5/e2fsck/ea_refcount.c:253-266 | The count stored, every other unchanged; storing 0 creates nothing |
| `EaRefcount.Table.Next` | e2fsprogs-1.46.5/e2fsck/ea_refcount.c:281-297 | The next entry with a count |
| `EaRefcount.Table.Iterate` | e2fsprogs-1.46.5/e2fsck/ea_refcount.c:276-297 | Every non-zero key once, in ascending order, if key 0 has no count |
| `EaRefcount.CollapseKeeps` | e2fsprogs-1.46.5/e2fsck/ea_refcount.c:87-106 | Collapsing keeps the order and every count and leaves no zero |
| `EaRefcount.CollapsedExact` | e2fsprogs-1.46.5/e2fsck/ea_refcount.c:87-106 | The entries left are exactly the keys with a count |
| `EaReferences.Pass1.CheckExtAttr` | e2fsprogs-1.46.5/e2fsck/pass1.c:2457-2487 | A reference is counted exactly if the inode keeps the block |
| `EaReferences.Pass1.Adjust` | e2fsprogs-1.46.5/e2fsck/pass1.c:2346-2384 | Each header changed by the count of its block in the table |
| `EaReferences.Pass1.AdjustBoth` | e2fsprogs-1.46.5/e2fsck/pass1.c:1990-2005 | With every repair accepted the reference count of every attribute block seen is the number of inodes referring to it, also where the stored one was 0; no block is in both tables |
| `EaReferences.FirstReference` | e2fsprogs-1.46.5/e2fsck/pass1.c:2645 | The first visit leaves the stated references less one expected, in 32-bit arithmetic |
| `EncryptedFiles.Index.Add` | e2fsprogs-1.46.5/e2fsck/encrypted_files.c:364-394 | The index extended by one inode: a context of a policy, with any nonce, is stored with the number of that policy; which contexts are refused as corrupt, and which stored as unrecognized, said of their bytes |
| `EncryptedFiles.ContextRoundTrip` | e2fsprogs-1.46.5/e2fsck/encrypted_files.c:164-213 | A policy of version 1 or 2 put into a context with any nonce is recognized as that policy |
| `EncryptedFiles.ContextKinds` | e2fsprogs-1.46.5/e2fsck/encrypted_files.c:164-213 | Corrupt are exactly the empty context, version 0 and the known versions of another size; unrecognized exactly the higher versions; the others are contexts of a policy |
| `EncryptedFiles.Index.Append` | e2fsprogs-1.46.5/e2fsck/encrypted_files.c:290-344 | The last range extended or a new one begun, within the capacity |
| `EncryptedFiles.Index.Find` | e2fsprogs-1.46.5/e2fsck/encrypted_files.c:403-425 | The number appended for the inode, or the number for none |
| `EncryptedFiles.Index.SameNumber` | e2fsprogs-1.46.5/e2fsck/encrypted_files.c:403-425 | Two recognized contexts have the same number if they are the same policy, and only then, for up to 2^32 policies |
| `EncryptedFiles.NumbersApart` | e2fsprogs-1.46.5/e2fsck/encrypted_files.c:258-271 | No two policies have one number if and only if there are no more of them than 32-bit numbers; and none has a special number as long as there are no more than the smallest of those |
| `EncryptedFiles.Index.PolicyId` | e2fsprogs-1.46.5/e2fsck/encrypted_files.c:243-274 | A policy seen before keeps its number, a new one gets the next, which starts again at 0 when the numbers run out |
| `EncryptedFiles.AppendedTells` | e2fsprogs-1.46.5/e2fsck/encrypted_files.c:290-344 | After an append in order the ranges are disjoint, ascending and as few as they can be, and tell of exactly one more inode |
| `EncryptedFiles.SamePolicy` | e2fsprogs-1.46.5/e2fsck/encrypted_files.c:164-213 | Two recognized contexts parse to one policy if and only if they agree apart from the nonce |
| `EncryptedFiles.CmpOrder` | e2fsprogs-1.46.5/e2fsck/encrypted_files.c:125-139 | The comparison is a total order in which only equal policies compare equal |
| `EncryptedFiles.LinkedOrdered` | e2fsprogs-1.46.5/e2fsck/encrypted_files.c:243-271 | Linking a policy where its search ended keeps the tree ordered |
| `DirInfo.Table.Add` | e2fsprogs-1.46.5/e2fsck/dirinfo.c:130-202 | The table as a map gains the entry, or replaces it; it stays sorted |
| `DirInfo.Table.Get` | e2fsprogs-1.46.5/e2fsck/dirinfo.c:204-286 | Through the remembered entry and the search: what the map says |
| `DirInfo.Table.Search` | e2fsprogs-1.46.5/e2fsck/dirinfo.c:249-285 | The two ends, then the search between them, find the entry if there is one |
| `DirInfo.Table.SetParent` | e2fsprogs-1.46.5/e2fsck/dirinfo.c:428-440 | Only the parent of that directory changes |
| `DirInfo.Table.IterNext` | e2fsprogs-1.46.5/e2fsck/dirinfo.c:412-421 | Entries come in order of the index; at the end every original entry has been returned |
| `DirInfo.IterateWithInserts` | e2fsprogs-1.46.5/e2fsck/dirinfo.c:183-421 | An iteration with any insertions between its steps skips no entry that was there at the start |
| `Pass3.Checker.Pass` | e2fsprogs-1.46.5/e2fsck/pass3.c:101-111 | With every repair accepted all directories reach the root afterwards if and only if there was no cycle before; exactly the directories without a parent are linked into lost+found; `..` names the containing directory |
| `Pass3.Checker.CheckDirectory` | e2fsprogs-1.46.5/e2fsck/pass3.c:289-377 | One directory: what is done is linked, the table shows the links of what was not looked at; the error comes exactly if the walk up meets a directory that is not in the table |
| `Pass3.Checker.Walk` | e2fsprogs-1.46.5/e2fsck/pass3.c:297-361 | For any table the walk ends after at most MAX_DEPTH + 2 directories, since loop detection starts again at one that is done |
| `Pass3.Checker.Reconnect` | e2fsprogs-1.46.5/e2fsck/pass3.c:329-336 | The directory is linked into lost+found, in the tree and in `..` |
| `Pass3.ConnectedReaches` | e2fsprogs-1.46.5/e2fsck/pass3.c:322-337 | Once every parentless directory is linked into lost+found, all reach the root exactly if the links had no cycle |
| `DirCache.Run` | e2fsprogs-1.46.5/contrib/fsstress.c:718-782 | Over any run of additions, swap-removals and searches every search through the cache finds what the linear search finds |
| `DirCache.DirList.DirIdToFent` | e2fsprogs-1.46.5/contrib/fsstress.c:766-782 | The result of the linear search |
| `DirCache.DirList.Delete` | e2fsprogs-1.46.5/contrib/fsstress.c:751-764 | The last entry moves into the slot and the cache points only at live entries |
| `DirCache.DirList.Purge` | e2fsprogs-1.46.5/contrib/fsstress.c:742-748 | Afterwards no cache slot points at that identifier |

## Left out

- FcReplay.RunExact: asks, as StepExact does, for ranges inside the address ranges; the additions whose extent would reach beyond logical block 2^32 or physical block 2^64 are taken as unsafe; whether their result happens to be right is not said.
- Fast commit: the inode, link and unlink updates beyond their flush of the cache; the driver in recovery.c, which is not part of this model beyond handing over blocks in order; bytes of the tags other than the fields read, and the checksum function, which is a parameter.
- The extent tree itself (nodes, splits, checksums): a tree is the sequence of extents its iterator yields; `qsort` is any permutation ordered by the comparison, computed here by an insertion sort.
- I/O errors, memory allocation failure, prompts (answers are parameters), progress, quota and summary counts.
- Pass 1B to 1D: clusters of more than one block, blocks with negative logical number, attribute blocks, the bad-block and resize inodes, shared_blocks, and pass 1C, which only finds names.
- Directory blocks: inline directories, checksum tails, hashes in entries, block sizes of 64 KiB and more, encrypted and casefolded names; the tests of inode numbers are one parameter.
- Journal: `journal_guess_blocks` (its result is a parameter), the place of the UUID bytes (`debugfs/do_journal.c:355-357` counts it in tag structures, not bytes; the 16 bytes left for it are modelled), checksums and times in the blocks, byte order, and the mapping of journal blocks to disk blocks.
- Attribute blocks: the validity tests on first visit are a parameter; the inodes that hold large values.
- The rebalancing of the red-black tree of policies; the tree is a value that is replaced, so pointers into it are not modelled.
- `DirInfo`: the variant on a database file; `dx_dirinfo.c`, which repeats the array code; an index sum of 2^32 or more in the search.
- Pass 3: creating the root and lost+found; a failure to link into lost+found; indexing.
- `DirCache`: the lists of files other than directories, which have no cache.
- The remaining passes, libext2fs, and the other commands of debugfs: they would add only easier members.
