# F2FS-J: a verified model

This project models the hardest parts of F2FS-J, a log-structured file system with an epoch journal,
and proves what they promise. `dafny verify dfyconfig.toml` checks all of it.

- **Checkpoints** (`CheckpointProtocol`, `CheckpointPack`). The two-pack commit is a state machine over
  its steps, including failed and lost writes, a volatile device cache, power cuts, unmounts and remounts. For every
  run, mount selects a pack all of whose blocks one attempt wrote: the newest one whose last block reached
  the medium. `CheckpointPack` lays out the blocks of such a pack, and writes and reads back the orphan list.
- **Extent cache** (`ExtentList`, `RbIndex`, `ExtentUpdate`, `ExtentCache`). The lookups run on any binary
  tree shape and are related to the in-order sequence of nodes. The class keeps trees, the shared LRU list,
  the cached node and the largest extent; a hit is always right about the file's true block map.
- **Directories** (`DentryArea`, `DirGeometry`, `Directory`, `DirRead`, `InlineDir`). Find, add and delete
  on hashed buckets of slot bitmaps behave as lookup, insert and remove on a map from names to inodes.
  Any series of partial readdir calls lists every entry once. Inline conversion keeps the meaning.
- **Range shifts** (`RangeShift`). Collapse and insert move pages in overlapping chunks, some by re-linking
  and some by copying; the outcome is a plain shift, and insert followed by collapse is the identity.
- **Compressed files** (`CompressCluster`, `CompressFile`). `i_compr_blocks` and the blocks charged to the
  inode equal sums over the address slots under write, overwrite, truncate, release and reserve.
- **Epoch journal** (`EpochJournal`). Inserts interleave with the steps of the commit thread. Every linked
  log is consumed once, in order, by the commit of the epoch its list was registered for.
- **Node offsets, victim search, access control lists** (`NodeOffset`, `VictimSearch`, `AclCodec`).
  A bijection between block indices and node slots, a circular search that visits every dirty segment at
  most once, and a codec whose decoder accepts exactly the encodings.

Constants of headers outside the source tree (`NIDS_PER_BLOCK`, `F2FS_ORPHANS_PER_BLOCK`, bucket and
geometry limits) are parameters. Allocation results, the block allocator's addresses, the caller's buffer
space, hash functions and the set of blocks a checkpoint knows are parameters too. Numbers are unbounded
unless a width is stated.

Some properties fail in a corner, and the model says exactly where:

- Mount selects the committed pack if and only if the other segment is not aliased, that is, does not start
  with a torn attempt whose old last block carries the same 64 version bits. Short of 2^64 - 1 checkpoints
  since mkfs that cannot happen (`CrashAtomicityBelowWrap`); after that it does, on an explicit run
  (`WrapAroundIsReached`).
- Adding a name fails if and only if the directory has its full depth, even if a lower level has room
  (`AddRegularEntry`).
- A collapse or insert of a range that LFS mode refuses keeps the pages moved before. A refused collapse leaves
  the file as it was if and only if all pages it moved or moved over are holes (`RefusedCollapseKeeps`,
  `RefusedCollapseMoves`). A refused insert does if and only if no page was moved (`RefusedInsertKeeps`), and
  i_size has grown to the end of the last page moved (`ReachesSame`, `RefusedInsertGrows`).
- An insert into the epoch journal is refused if and only if the inode's active list is not in use and the inode
  either was registered under the running epoch's index before or has no idle list. The map from indices to
  lists is never cleared, so this happens when an index comes round again (`InsertExactly`, `TakenForGood`,
  `InsertIsRefused`).
- A reserve of compressed blocks that runs out of space leaves the counters wrong. It stays balanced
  if and only if there was enough space, or there was none at all and the first compressed cluster has
  no slot left to reserve (`ReserveBlocks`, `ReserveShort`, `ReserveCanUnbalance`).
- A released file can still be written: fallocate reserves slots, and a truncation dirties the cluster the new
  end cuts. Either keeps it balanced if and only if the cluster neither is nor becomes compressed
  (`ReserveNewBlock`, `WriteRawPages`, `WriteCompressedPages`, `ReleasedCanUnbalance`).

## Model

| member | source | states |
|---|---|---|
| CheckpointProtocol.CrashAtomicity | f2fsj/checkpoint.c:832-991 | after any run of checkpoints, failed or lost writes, power cuts, unmounts and remounts, the segment of the newest attempt whose last block reached the medium holds all its blocks, and the next mount, with or without a power cut, selects it if and only if the other segment is not aliased |
| CheckpointProtocol.CrashAtomicityBelowWrap | f2fsj/checkpoint.c:832-991 | with fewer than 2^64 - 1 checkpoints since mkfs every mount of every run selects that pack |
| CheckpointProtocol.FewAttempts | f2fsj/checkpoint.c:1374-1409 | as long as serials stay within one window of 2^64 no mount of a run meets an aliased segment |
| CheckpointProtocol.NewestStep | f2fsj/f2fs.h:2421-2442 | only starting a checkpoint raises the newest serial, by one |
| CheckpointProtocol.NotAliasedBelowWrap | f2fsj/checkpoint.c:864-901 | an older last block cannot pass for the last block of a torn attempt within one window |
| CheckpointProtocol.WrapAroundIsReached | f2fsj/checkpoint.c:864-991 | a run from a fresh file system that ends with an aliased segment, whose torn pack the next mount takes |
| CheckpointProtocol.ReportedCheckpointSurvives | f2fsj/checkpoint.c:1374-1409 | a checkpoint that reported success is what mount selects after any later run, cache kept or lost, until a newer one takes its place |
| CheckpointProtocol.LastBlockGated | f2fsj/checkpoint.c:1549-1564 | in every order of completions and failures, the last block is issued only when every other block of the pack completed without error |
| CheckpointProtocol.ErrorIsSticky | f2fsj/checkpoint.c:299-330 | only a mount clears the error flag; until then no page is submitted, no checkpoint begins, no last block is issued, and a refused commit changes the pack index only |
| CheckpointProtocol.MountSelectsCommitted | f2fsj/checkpoint.c:903-991 | mount selects the committed pack if and only if the other segment is not aliased, and the torn one otherwise |
| CheckpointProtocol.MountLands | f2fsj/checkpoint.c:943-991 | every mount of a reachable state succeeds, leaves medium and device cache alone and comes up without error, on the committed pack with its version, or on the torn attempt if and only if the other segment is aliased |
| CheckpointProtocol.CanGoOn | f2fsj/checkpoint.c:1431-1600 | no run gets stuck: short of 2^64 - 1 checkpoints, wherever a run left the file system down, it can be mounted again and any checkpoint of the next version begun and carried through |
| CheckpointProtocol.ValidPack | f2fsj/checkpoint.c:864-901 | a pack is valid exactly if its first block names a last block inside the segment that carries the same 64 version bits |
| CheckpointProtocol.SpareIsInvalidOrOlder | f2fsj/checkpoint.c:864-901 | the segment that is not committed fails validation, or carries the version just before, or is aliased; reuse of a crashed attempt's version changes nothing |
| CheckpointProtocol.CommittedIsValid | f2fsj/checkpoint.c:864-901 | first and last block of the committed pack validate with equal versions |
| CheckpointProtocol.OlderIsNotAfter | f2fsj/f2fs.h:117-119 | the signed 64-bit comparison orders a version and its predecessor both ways, across wrap-around |
| CheckpointProtocol.SameVersionSameSerial | f2fsj/checkpoint.c:832-862 | within a window of 2^64 checkpoints stored versions are equal exactly for the same checkpoint |
| CheckpointProtocol.LastBlockCommits | f2fsj/checkpoint.c:1374-1409 | writing the last block makes the spare segment the committed one |
| CheckpointProtocol.SpareWritesKeepMedium | f2fsj/checkpoint.c:1431-1543 | any subset of an attempt's other blocks on the spare segment leaves the committed pack in charge |
| CheckpointProtocol.StepInv | f2fsj/checkpoint.c:1431-1600 | every step of the protocol keeps the invariant on medium, device cache, page states, phase and error flag |
| CheckpointProtocol.SubmitInv | f2fsj/checkpoint.c:299-330 | submitting a page keeps the invariant whether the device holds the write, never takes it, or loses it together with an older write to the same block |
| CheckpointProtocol.DropFailedInv | f2fsj/data.c:297-354 | lowering the page count of a failed page, which the completion handler does after raising the sticky error flag, keeps the invariant that a failure is never unnoticed |
| CheckpointProtocol.UnmountInv | f2fsj/checkpoint.c:1602-1707 | an unmount that leaves blocks of a failed attempt in the device cache keeps the invariant |
| CheckpointProtocol.DeviceSteps | f2fsj/data.c:297-354 | what each step does to every block of the medium and to every block as read: held writes are read back, lost ones are not, a power cut loses exactly what is not on the medium |
| CheckpointProtocol.NothingIsRuledOut | f2fsj/data.c:297-354 | submitted pages may be held, ignored or erased, may complete or fail in any order, cached writes may reach the medium in any order, and power may fail at any time |
| CheckpointProtocol.MountInv | f2fsj/checkpoint.c:903-991 | a mount through the device cache, of a segment that is not aliased, keeps the invariant |
| CheckpointProtocol.WaitWritebackInv | f2fsj/checkpoint.c:1277-1298 | the wait ends only when no page of the attempt is in flight |
| CheckpointProtocol.WaitDirtyInv | f2fsj/checkpoint.c:299-330 | the wait for dirty metadata ends only when every page of the attempt was submitted |
| CheckpointProtocol.FlushInv | f2fsj/data.c:586-606 | the preflush moves everything but the last block from the cache to the medium before that block is written |
| CheckpointProtocol.RunInv | f2fsj/checkpoint.c:1602-1707 | the invariant holds at the end of every run |
| CheckpointProtocol.StepIsMonotone | f2fsj/f2fs.h:2421-2442 | no step moves the selected checkpoint back, and one step moves it forward by one at most |
| CheckpointProtocol.RunIsMonotone | f2fsj/f2fs.h:2421-2442 | over whole runs the selected checkpoint never goes back, and an equal version means the same image and segment |
| CheckpointProtocol.WrapAroundAcceptsTornPack | f2fsj/checkpoint.c:864-991 | a medium that meets the invariant with a last block exactly 2^64 checkpoints old is aliased, and mount takes the torn pack |
| CheckpointPack.WriteOrphanInodes | f2fsj/checkpoint.c:760-815 | the blocks written number exactly GET_ORPHAN_BLOCKS, read back as the list in order, are labelled 1, 2, ... with the total, and nothing else is written |
| CheckpointPack.RecoverOrphanInodes | f2fsj/checkpoint.c:685-758 | the loops over blocks and entries recover what the blocks before cp_pack_start_sum name, or fail if one is unreadable |
| CheckpointPack.OrphansFromPlaced | f2fsj/checkpoint.c:718-744 | reading placed orphan blocks gives back the list they encode |
| CheckpointPack.OrphanBlocksBound | f2fsj/checkpoint.c:1837-1839 | a list within the orphan limit needs no more blocks than the limit was computed from |
| CheckpointPack.WriteSummaries | f2fsj/checkpoint.c:1531-1543 | writes exactly the summary blocks, in one run, none of them a checkpoint block; which summary is at which offset |
| CheckpointPack.WriteNatBits | f2fsj/checkpoint.c:1504-1517 | writes exactly the nat_bits range; which block of nat_bits is at which offset |
| CheckpointPack.WritePayload | f2fsj/checkpoint.c:1519-1524 | writes exactly the payload range behind the first block; which payload block is at which offset |
| CheckpointPack.Assembled | f2fsj/checkpoint.c:1477-1543 | the pieces tile the pack without overlap; first and last block agree and nothing else passes the CRC |
| CheckpointPack.WritePack | f2fsj/checkpoint.c:1502-1543 | the pack occupies offsets 0 to its length, clear of nat_bits, is a well-formed image of the protocol, and its orphan list reads back |
| CheckpointPack.CheckpointManager.constructor | f2fsj/checkpoint.c:1824-1840 | establishes the orphan limit that leaves room for the pack |
| CheckpointPack.CheckpointManager.AcquireOrphan | f2fsj/checkpoint.c:595-615 | grants a slot exactly while the limit is not reached |
| CheckpointPack.CheckpointManager.ReleaseOrphan | f2fsj/checkpoint.c:617-625 | returns a reserved slot |
| CheckpointPack.CheckpointManager.AddOrphan | f2fsj/checkpoint.c:465-511 | appends the inode once and turns one reserved slot into an entry |
| CheckpointPack.CheckpointManager.RemoveOrphan | f2fsj/checkpoint.c:513-529 | removes the inode and nothing else, the others keep their order, and ino_num stays equal to entries plus reserved slots |
| CheckpointPack.CheckpointManager.LayPack | f2fsj/checkpoint.c:1468-1543 | in every reachable state the pack fits in one segment, its last block is where validation reads it, nat_bits are kept or rebuilt exactly if they fit behind it, and recovery reads back the orphan list; every offset of the pack holds the block the code puts there |
| ExtentList.PunchAgrees | f2fsj/extent_cache.c:575-631 | what is left after cutting a range agrees with every block map that changed only inside the range |
| ExtentList.PunchOrdered | f2fsj/extent_cache.c:575-631 | cutting keeps extents sorted and disjoint and leaves nothing in the range |
| ExtentList.PunchDisjoint | f2fsj/extent_cache.c:575-631 | extents clear of the range are untouched |
| ExtentList.PunchKeeps | f2fsj/extent_cache.c:586-611 | outside the cut range a page hits, at its block, exactly if it did before and its extent misses the range or keeps 64 pages or more on its side, where the right one of two parts needs a new node |
| ExtentList.MergeInsertAgrees | f2fsj/extent_cache.c:458-528 | merging with one or both neighbours keeps every page at its true block |
| ExtentList.MergeInsertOrdered | f2fsj/extent_cache.c:458-528 | merging or inserting keeps extents sorted and disjoint |
| ExtentList.MergeInsertCovers | f2fsj/extent_cache.c:458-528 | the inserted range ends up cached |
| ExtentList.MergeInsertKeeps | f2fsj/extent_cache.c:458-528 | merging neither loses nor moves a page, and adds the new range unless it needed a node and got none |
| ExtentList.MergeInsertUnmerged | f2fsj/extent_cache.c:458-493 | a list without two neighbours that could be one stays such a list |
| ExtentList.JoinAgrees | f2fsj/f2fs.h:863-884 | two mergeable extents that agree with the block map agree as one |
| RbIndex.LookupSlow | f2fsj/extent_cache.c:18-59 | on any tree shape the search finds the node that covers the page, and none exactly if there is none |
| RbIndex.LookupForInsert | f2fsj/extent_cache.c:84-116 | the position found is the rank of the page, leftmost exactly at rank 0, and the bug check fires exactly when a node covers the page |
| RbIndex.LookupRet | f2fsj/extent_cache.c:118-189 | entry, previous, next and insert position are those read off the in-order sequence, whether found from the cached node or the tree |
| ExtentUpdate.UpdateAgrees | f2fsj/extent_cache.c:530-663 | after an update every cached extent and the largest one agree with the new block map |
| ExtentUpdate.UpdateOrdered | f2fsj/extent_cache.c:530-663 | an update keeps extents sorted and disjoint |
| ExtentUpdate.UpdateHits | f2fsj/extent_cache.c:633-651 | after a mapped update that neither gives up nor fails to allocate every page of the range hits with its new block |
| ExtentUpdate.UpdateKeeps | f2fsj/extent_cache.c:575-639 | outside its range an update that does not give up keeps exactly the pages that survive the cut, at their blocks |
| ExtentUpdate.UpdateUnmerged | f2fsj/extent_cache.c:530-663 | no two nodes are left that are contiguous in the file and on the device |
| ExtentUpdate.LargestIsLongest | f2fsj/f2fs.h:889-896 | no node the update made or cut is longer than the largest extent, which is one of the nodes unless it is the old one, emptied where the range meets it |
| ExtentUpdate.GivesUp | f2fsj/extent_cache.c:641-652 | an update gives the tree up exactly if it maps a range, cuts something, and neither the old largest extent nor anything left or made has 64 pages |
| ExtentUpdate.DropAgrees | f2fsj/extent_cache.c:351-359 | dropping the largest extent where it meets the range keeps it right |
| ExtentUpdate.PunchLargestAgrees | f2fsj/f2fs.h:889-896 | the largest extent stays right while parts of cut extents are offered to it |
| ExtentCache.InsertTree | f2fsj/extent_cache.c:495-528 | inserts one node at its rank, keeps node count, list and order, and changes nothing if allocation fails; the new node becomes the cached and most recently used one |
| ExtentCache.KeepParts | f2fsj/extent_cache.c:582-611 | keeps exactly the outer parts that are long enough, splitting if both are |
| ExtentCache.CutNode | f2fsj/extent_cache.c:576-631 | one pass of the loop replaces a node by its remaining parts, or releases it |
| ExtentCache.Invalidate | f2fsj/extent_cache.c:565-631 | the loop leaves exactly the cut sequence, and its pointers are the neighbours of the range |
| ExtentCache.TryMerge | f2fsj/extent_cache.c:458-493 | merges back, front or both exactly when contiguous, keeping list and order; the node that holds the result becomes the cached and most recently used one |
| ExtentCache.CacheRange | f2fsj/extent_cache.c:633-639 | merge, or else insert, gives the merged sequence |
| ExtentCache.UpdateTree | f2fsj/extent_cache.c:530-663 | the in-place algorithm refines the update on sequences; a changed largest extent is reported; the inode is dirtied exactly if the largest extent changes, meets the range or is given up; other trees keep their order on the LRU list |
| ExtentCache.FreeTree | f2fsj/extent_cache.c:333-349 | releases all nodes and counts them; none of them stays on the LRU list |
| ExtentCache.ExtentCache.constructor | f2fsj/extent_cache.c:891-901 | an empty cache is sound |
| ExtentCache.ExtentCache.InitTree | f2fsj/extent_cache.c:362-400 | the extent stored in the inode becomes the first node of an empty tree, at the tail of the LRU list; otherwise nothing changes |
| ExtentCache.ExtentCache.Update | f2fsj/extent_cache.c:530-663 | soundness, order, node counts and the LRU list survive any update; a mapped range hits with its new blocks unless the tree gave up; other trees are untouched; a changed largest extent dirties the inode; pages outside the range stay cached exactly if they survive the cut; the updated range is the most recently used node and other trees keep their order on the list |
| ExtentCache.ExtentCache.Lookup | f2fsj/extent_cache.c:410-456 | a hit covers the page and every page of it maps to its true block; there is a hit exactly if the largest extent or a node covers the page; a node that hits becomes the cached and most recently used one |
| ExtentCache.ExtentCache.Drop | f2fsj/extent_cache.c:798-818 | the tree is empty and off; the inode is dirtied exactly if there was a largest extent; its nodes leave the LRU list and the others keep their order |
| ExtentCache.ExtentCache.DestroyNodes | f2fsj/extent_cache.c:782-796 | all nodes of the inode go and are counted; the largest extent stays; they leave the LRU list and the others keep their order |
| ExtentCache.ExtentCache.EvictHead | f2fsj/extent_cache.c:755-766 | the least recently used node goes, off its tree and off the list, and nothing else changes |
| ExtentCache.ExtentCache.Shrink | f2fsj/extent_cache.c:743-772 | entries go from the head of the LRU list, off tree and list together, those of locked trees move to its tail; with none locked exactly the least recently used go; soundness survives |
| ExtentCache.AgedFree | f2fsj/extent_cache.c:743-772 | with no tree locked the shrinker drops exactly the asked number of least recently used entries |
| ExtentCache.AgedLocked | f2fsj/extent_cache.c:743-772 | of the oldest entries those of locked trees move to the tail in order, and the others go |
| DentryArea.RoomForFilename | f2fsj/dir.c:651-669 | returns the first free run that is long enough, and the size of the area exactly if there is none |
| DentryArea.FindTarget | f2fsj/dir.c:285-331 | finds a matching entry; if there is none, max_slots is at least s exactly when there is room for s slots |
| DentryArea.UpdateDentry | f2fsj/dir.c:685-705 | the loop sets exactly the entry's bits and stores record and name |
| DentryArea.WithEntryAdds | f2fsj/dir.c:685-705 | the entries afterwards are the old ones, names included, and the new one |
| DentryArea.WithEntryWellFormed | f2fsj/dir.c:685-705 | entry runs stay well formed |
| DentryArea.ClearSlots | f2fsj/dir.c:904-926 | the loop clears exactly the bits of the entry |
| DentryArea.WithoutEntryRemoves | f2fsj/dir.c:904-926 | the entries afterwards are the old ones but the deleted one, still well formed |
| DirGeometry.DirBlockIndex | f2fsj/dir.c:186-196 | the loop computes the first block of the bucket; while buckets double it is 2 * ((2^level - 1) * 2^dir_level + idx) |
| DirGeometry.BucketsDouble | f2fsj/dir.c:30-36 | buckets start at 2^dir_level, double from level to level below half of the maximal depth and are MAX_DIR_BUCKETS from there on |
| DirGeometry.EarlyLevelStart | f2fsj/dir.c:186-196 | while buckets double, a level starts at 2 * (2^level - 1) * 2^dir_level |
| DirGeometry.LateLevelStart | f2fsj/dir.c:30-44 | after that every level has the maximal number of buckets, of two blocks below half of the maximal depth and of four from there on |
| DirGeometry.BucketsDisjoint | f2fsj/dir.c:30-44 | no block belongs to two buckets of any levels |
| DirGeometry.BucketsCover | f2fsj/dir.c:186-196 | every block below a level belongs to a bucket of an earlier one |
| Directory.Directory.constructor | f2fsj/dir.c:528-563 | a fresh directory maps "." and ".." and nothing else |
| Directory.Directory.FindInLevel | f2fsj/dir.c:333-387 | finds a matching entry of the bucket or shows there is none; the room hint is set exactly if the bucket has room and no hint for the hash exists |
| Directory.Directory.Find | f2fsj/dir.c:389-426 | finds a name exactly if the directory holds it, at the place it is stored; a fresh hint names the lowest level with room, below the depth; no other hint is set and one for this hash is left alone |
| Directory.Directory.GetNewBlock | f2fsj/data.c:1294-1342 | a missing block appears zeroed, the size covers it and the contents stay |
| Directory.Directory.StoreEntry | f2fsj/dir.c:766-802 | storing a new name in a block of its hash inserts it into the map |
| Directory.Directory.AddInLevel | f2fsj/dir.c:743-761 | stores the entry in the first block of the bucket with room; a level without room is left exactly as it was |
| Directory.Directory.AddRegularEntry | f2fsj/dir.c:707-802 | succeeds if and only if the depth is below the maximum; then inserts the name at the lowest level with room from the hint on, other blocks read as before, and a level is added exactly if no present one has room; failure leaves blocks, size, depth and index alone; a hint for this hash is used up either way; the size grows exactly to the block written |
| Directory.FreshLevelHasRoom | f2fsj/dir.c:731-741 | a level the directory does not use yet has room for any name |
| Directory.Directory.Delete | f2fsj/dir.c:904-955 | removes exactly the entry's name from the map, frees its slots, and the block too if nothing is left in it |
| Directory.MatchIsIndexed | f2fsj/dir.c:285-331 | in a well-formed directory any match of a name is the entry of that name |
| Directory.AbsentIfUnmatched | f2fsj/dir.c:389-426 | a name without a match in any bucket of its hash below the depth is not in the directory |
| Directory.InsertedOk | f2fsj/dir.c:766-802 | insertion keeps the directory well formed and updates the map at one name |
| Directory.RemovedOk | f2fsj/dir.c:904-926 | removal keeps the directory well formed and drops one name |
| Directory.PunchedOk | f2fsj/dir.c:928-955 | freeing a block without entries changes neither |
| DirRead.FillDentries | f2fsj/dir.c:994-1076 | emits the entries from a slot on in order, and stops at the first that does not fit, at a position from which the rest follows |
| DirRead.Readdir | f2fsj/dir.c:1078-1155 | what is emitted and what remains at the new position together are what remained before; a short call has emitted everything |
| DirRead.ReaddirSeries | f2fsj/dir.c:1078-1155 | any series of calls, cut off anywhere, emits a prefix of the full listing and stops where the rest begins |
| DirRead.LocsComplete | f2fsj/dir.c:1095-1150 | every live entry occurs once, in the order of blocks and slots, hole blocks skipped |
| DirRead.ListingIsComplete | f2fsj/dir.c:1095-1150 | the full listing is exactly these entries, one by one |
| DirRead.ListingFromStart | f2fsj/dir.c:1078-1095 | reading from position 0 lists all of it |
| DirRead.ListingIsTheMap | f2fsj/dir.c:994-1155 | listing a directory from position 0 tells its map: as many items as names, each with the inode and the kind of its name, and every name once |
| FileType.TypeRoundTrip | f2fsj/dir.c:46-77 | reading a stored type and storing it again gives the same type, and unknown for anything past the table |
| FileType.DeTypeIsKind | f2fsj/dir.c:46-77 | each stored type is reported as its kind, and types out of range as unknown |
| FileType.TypeByModeIsKind | f2fsj/dir.c:57-70 | a file is stored with the type of its mode |
| InlineDir.MoveInlineDirents | f2fsj/inline.c:374-446 | the direct copy yields a well-formed directory of depth 1 with the same map and every entry in its old slot of block 0 |
| InlineDir.MoveRehashedDirents | f2fsj/inline.c:448-548 | re-adding each entry succeeds if and only if there is none or the depth is below the maximum; it yields the same map with "." and ".." in slots 0 and 1 of block 0; failure leaves no blocks |
| InlineDir.FitsAtLevelZero | f2fsj/inline.c:448-498 | an inline entry always fits into the first block of its level-0 bucket |
| InlineDir.StoreTail | f2fsj/inline.c:448-498 | first fit keeps every block free from the end of the last inline entry on |
| InlineDir.ConvertInlineDir | f2fsj/inline.c:550-557 | succeeds if and only if the directory level is 0, there is no entry, or the depth is below the maximum; then every lookup gives the same inode and the same type to every reader |
| InlineDir.MovedSame | f2fsj/inline.c:448-498 | re-adding every entry with its type read and stored again keeps the meaning |
| InlineDir.CopyKeepsEntries | f2fsj/inline.c:407-420 | copying bitmap, records and names keeps every entry, whatever the rest of the page holds |
| InlineDir.BlockZeroTakesAll | f2fsj/dir.c:30-44 | at directory level 0 block 0 is in the bucket of every hash |
| RangeShift.ReadOutBlkaddrs | f2fsj/file.c:1179-1232 | saves every slot and clears exactly those to re-link; refuses exactly if there are any in LFS mode |
| RangeShift.NeedsRelinkIs | f2fsj/file.c:1212-1224 | pages are re-linked exactly if they have a block of their own that the checkpoint does not know |
| RangeShift.CloneBlkaddrs | f2fsj/file.c:1258-1340 | every target slot shows the saved content, sources are vacated, the rest is untouched, although source and target overlap; the size grows to the end of the last page written; a re-linked page keeps its block, a copied one takes the block of its target or none yet |
| RangeShift.ExchangeDataBlock | f2fsj/file.c:1342-1392 | chunk after chunk the whole range is moved as if at once; refused exactly if LFS mode meets a page to re-link, and then exactly the chunks before it are moved, the other pages untouched, and the size has grown to their end; re-linked pages keep their blocks and no block gets a second owner |
| RangeShift.CollapseRange | f2fsj/file.c:1394-1455 | success cuts the range out: pages behind it move down and the size shrinks; invalid arguments and LFS mode are refused exactly in the cases the code names, and the size then stays; after a refusal in LFS mode the pages of the chunks before are down, their old places are holes and all else is as it was; re-linked pages keep their blocks, and whatever the outcome no block gets a second owner |
| RangeShift.AfterStop | f2fsj/file.c:1350-1392 | stopping a move down after some chunks leaves exactly their pages moved |
| RangeShift.RefusedCollapseKeeps | f2fsj/file.c:1394-1417 | a refused collapse leaves every page as it was if and only if all pages it moved, and all places it moved them to, were holes |
| RangeShift.RefusedCollapseMoves | f2fsj/file.c:1367-1370 | for every chunk size a file whose refused collapse leaves page 1 at 0 and a hole behind it |
| RangeShift.InsertRange | f2fsj/file.c:1607-1679 | success opens a hole: pages from the offset on move up and the size grows; invalid arguments and LFS mode are refused exactly in the cases the code names; after a refusal in LFS mode the pages moved before are up, their old places are holes, all else below the end is as it was, and the size is at the end of the last of them; re-linked pages keep their blocks, and whatever the outcome no block gets a second owner |
| RangeShift.InsertStop | f2fsj/file.c:1652-1666 | stopping in the middle of a round leaves the rounds above and the first chunks of this one moved, and nothing else |
| RangeShift.RefusedInsertKeeps | f2fsj/file.c:1652-1666 | a refused insert leaves every page of the file as it was if and only if no page was moved before the refusal |
| RangeShift.EarlyAre | f2fsj/file.c:1652-1666 | the pages moved before a refusal are those of the rounds above and of the chunks below the refused chunk in its round |
| RangeShift.ReachesSame | f2fsj/file.c:1308-1310 | the size stays exactly if no page written ends past it |
| RangeShift.RefusedInsertGrows | f2fsj/file.c:1318-1319 | four pages of which the checkpoint knows the last and not the one before: a refused insert leaves five, the last page moved and a hole in its place |
| RangeShift.InsertThenCollapse | f2fsj/file.c:1644-1666 | insert followed by collapse gives the file back |
| RangeShift.CollapseThenInsert | f2fsj/file.c:1394-1417 | collapse followed by insert leaves the file with a hole in the range |
| RangeShift.CollapsePages | f2fsj/file.c:1394-1400 | for block-aligned ranges byte and page arithmetic agree, rounding included |
| RangeShift.InsertPages | f2fsj/file.c:1644-1647 | the same for the insert |
| CompressCluster.CompressedPages | f2fsj/compress.c:668-685 | gives up exactly when no page would be saved; otherwise returns the page count that fits the data, between 1 and the cluster size less one |
| CompressCluster.SanityCheckCluster | f2fsj/compress.c:902-948 | reports exactly a second header or a block behind the end of the data |
| CompressCluster.OkIsNotMalformed | f2fsj/compress.c:902-948 | no cluster of a balanced file is ever reported |
| CompressCluster.ClusterBlocks | f2fsj/compress.c:950-997 | counts the compressed, or the reserved, blocks of a compressed cluster |
| CompressCluster.PackedCounts | f2fsj/compress.c:990-992 | the counters of a compressed cluster follow from its number of compressed blocks; unreleased it holds a full cluster of reserved slots, so the bug check never fires |
| CompressCluster.SavingPositive | f2fsj/f2fs.h:4328-4346 | a compressed cluster saves at least one block, any other none |
| CompressCluster.WriteCompressed | f2fsj/compress.c:1323-1361 | the slots become header, compressed blocks and reserved tail, and the old compressed blocks are counted |
| CompressCluster.WriteRaw | f2fsj/compress.c:1445-1520 | every present page that is not a hole gets its block, and the header gives the saving back once |
| CompressCluster.ReleaseSlots | f2fsj/file.c:3437-3458 | frees exactly the reserved slots and counts the compressed blocks |
| CompressCluster.ReserveSlots | f2fsj/file.c:3599-3621 | reserves exactly the empty slots and counts the compressed blocks |
| CompressCluster.ReleaseCluster | f2fsj/file.c:3437-3464 | release lowers the charge by the saving, and reserve undoes it slot by slot |
| CompressCluster.ReserveCluster | f2fsj/file.c:3599-3634 | reserve raises the charge by the saving, and release undoes it slot by slot |
| CompressCluster.DataStays | f2fsj/file.c:3438-3455 | release and reserve keep every block of the data where it is |
| CompressFile.ZeroMeansUncompressed | f2fsj/f2fs.h:4334-4336 | i_compr_blocks is 0 exactly when no cluster is compressed |
| CompressFile.GuardOpen | f2fsj/f2fs.h:4328-4346 | while a file is not released the counter covers every compressed cluster, so the zero guard never fires early |
| CompressFile.GuardNotEarly | f2fsj/file.c:586-593 | the deferred update of a truncation still finds its saving counted |
| CompressFile.Inode.constructor | f2fsj/f2fs.h:3050-3065 | an empty file is balanced |
| CompressFile.Inode.ReserveNewBlock | f2fsj/data.c:1087-1130 | a hole becomes reserved and is charged, once; the file stays balanced if and only if the slot is not an empty one of a released compressed cluster |
| CompressFile.Inode.WriteCompressedPages | f2fsj/compress.c:1217-1369 | bails out exactly on a hole; otherwise the counter trades the cluster's old saving for the new one and the charge stays; balanced if and only if it bailed out or the file is not released; the header is first, each compressed page is at its block and the other slots are reserved |
| CompressFile.Inode.WriteRawPages | f2fsj/data.c:2700-2715 | a whole-cluster overwrite takes the saving out of the counter and keeps the charge; balanced if and only if the file is not released or the cluster was not compressed; slot by slot, a page that is present and no hole is at its block and every other slot is as before |
| CompressFile.Inode.WriteMultiPages | f2fsj/compress.c:1522-1553 | the cluster ends up compressed exactly if it is inside the file, has no hole and shrinks by a page; balanced if and only if the file is not released or the cluster neither was nor became compressed; slot by slot, which block each page got |
| CompressFile.Inode.TruncateRange | f2fsj/file.c:567-640 | the slots are cleared and both counters follow, released or not |
| CompressFile.Inode.TruncateTail | f2fsj/compress.c:1167-1184 | the slots of a normal cluster past the new end are cleared and leave the charge |
| CompressFile.Inode.TruncateFrom | f2fsj/file.c:728-735 | every cluster from the first whole one on is cleared, dnode after dnode |
| CompressFile.Inode.SetSize | f2fsj/file.c:746-780 | a growing size touches no slot; otherwise whole clusters past the end go, of a normal cluster the slots past the end, a compressed one is handed to write-back; the file stays balanced and an emptied one is no longer released |
| CompressFile.TruncatedSlots | f2fsj/file.c:746-780 | a slot past the new end is cleared unless its cluster is compressed and reaches into the file; every other slot stays |
| CompressFile.SizeFacts | f2fsj/file.c:756-758 | byte, page and cluster counts of a size agree, rounding included |
| CompressFile.RawWriteUnbalances | f2fsj/f2fs.h:4334-4336 | in a released file a raw write of a compressed cluster puts the charge off by the header |
| CompressFile.NewSlotUnbalances | f2fsj/file.c:1749-1750 | in a released file a reserved slot of a compressed cluster breaks the accounting |
| CompressFile.ReleasedCanUnbalance | f2fsj/compress.c:1186-1211 | one released cluster of four with one compressed block, reserved and written raw |
| CompressFile.Inode.ReleaseBlocks | f2fsj/file.c:3472-3578 | frees exactly the saved blocks, empties the counter, and the released file is balanced |
| CompressFile.Inode.ReserveBlocks | f2fsj/file.c:3641-3737 | succeeds exactly if the saved blocks are to be had, and then restores counter and charge; when short, the file stays balanced exactly in the case named; running short keeps what was reserved before, takes all blocks left and does not count the last cluster |
| CompressFile.ReserveShort | f2fsj/file.c:3623-3634 | running short unbalances the file unless nothing was left and the first compressed cluster has no slot to reserve |
| CompressFile.ReserveCanUnbalance | f2fsj/file.c:3623-3629 | one cluster of four with two blocks missing and one to be had |
| EpochJournal.Conservation | f2fsj/j_log_operate.c:249-355 | in every state of every interleaving, consumed logs are a prefix of the linked ones in order, the rest is the content of the registered list, and idle lists are empty |
| EpochJournal.CommitIsComplete | f2fsj/j_epoch_commit.c:94-178 | when the commit of an epoch ends everything linked for it has been consumed |
| EpochJournal.ConsumedByOwnCommit | f2fsj/j_log_operate.c:327-347 | only the commit of an epoch consumes its logs, one at a time and each the next of its list; nothing is unlinked otherwise |
| EpochJournal.LinkedForLiveEpoch | f2fsj/j_log_operate.c:249-288 | a linked log goes to an epoch that is registered and not being emptied, and to no other |
| EpochJournal.InsertExactly | f2fsj/j_log_operate.c:249-290 | an insert registers the inode for the running epoch if it never was under that index and has an idle list, links for the epoch of the active list otherwise if one is in use, and is refused if not; nothing else is linked |
| EpochJournal.FirstInsert | f2fsj/j_log_operate.c:80-130 | the first insert into an inode is accepted, for the running epoch |
| EpochJournal.NextInsert | f2fsj/j_log_operate.c:249-290 | after an accepted insert the next one is accepted for the same epoch, behind it |
| EpochJournal.TakenForGood | f2fsj/j_log_operate.c:105-121 | the list an inode has under an index is never taken back, over any run |
| EpochJournal.InsertIsRefused | f2fsj/j_log_operate.c:260-270 | a run from the start after which all lists are idle, no commit is running, and an insert is refused |
| EpochJournal.CommitThreadMoves | f2fsj/j_epoch_commit.c:66-183 | the commit thread always has exactly one step until the round is over; a registered inode always has a list |
| EpochJournal.StepInv | f2fsj/j_epoch_commit.c:66-183 | every step keeps the invariant over registrations, list states and contents |
| EpochJournal.RunInv | f2fsj/j_epoch_commit.c:17-183 | the invariant holds after every interleaving |
| EpochJournal.CheckinInv | f2fsj/j_log_operate.c:80-131 | check-in takes an idle list, registers the inode once for the running epoch and disturbs no other list |
| EpochJournal.LinkInv | f2fsj/j_log_operate.c:257-288 | linking appends to a list in use only |
| EpochJournal.PickInv | f2fsj/j_epoch_commit.c:146-150 | marking a list as committing closes it to inserts |
| EpochJournal.TakeInv | f2fsj/j_log_operate.c:327-341 | taking a log moves it from list to consumed |
| EpochJournal.DropInv | f2fsj/j_log_operate.c:349-355 | an inode leaves the epoch with an empty list |
| EpochJournal.SwitchInv | f2fsj/j_epoch.c:131-146 | switching the running epoch loses nothing |
| EpochJournal.IdleFrom | f2fsj/j_log_operate.c:52-78 | the first idle list, or none |
| EpochJournal.Journal.constructor | f2fsj/j_epoch.c:25-49 | the initial state satisfies the invariant |
| EpochJournal.Journal.GetIdleLocalEpoch | f2fsj/j_log_operate.c:52-78 | the two searches return the first idle list, or 8 |
| EpochJournal.Journal.InsertLog | f2fsj/j_log_operate.c:249-288 | is one insert step; accepted exactly if the active list is in use after check-in |
| EpochJournal.Journal.TriggerEpochCommit | f2fsj/j_epoch_commit.c:17-64 | is one trigger step |
| EpochJournal.Journal.CommitInode | f2fsj/j_epoch_commit.c:132-168 | is a run that empties one inode's list and unregisters the inode |
| EpochJournal.Journal.EpochCommit | f2fsj/j_epoch_commit.c:66-183 | is a run after which all logs linked for the epoch are consumed and nobody is registered for it |
| NodeOffset.StartIsFirstBlock | f2fsj/gc.c:978-998 | for every direct node the computed index is the inode's slots plus the width of all direct nodes before it |
| NodeOffset.NodesBeforeIsRank | f2fsj/gc.c:984-996 | the three cases of the formula all count the direct nodes before this one |
| NodeOffset.StartsIncrease | f2fsj/gc.c:978-998 | a higher node offset starts at or behind the end of a lower one |
| NodeOffset.StartsTile | f2fsj/data.c:1852-1869 | each direct node starts where the one before ends, and the last ends at max_inode_blocks |
| NodeOffset.SameOrder | f2fsj/gc.c:978-998 | node offsets order the direct nodes as their ranks do and tell them apart |
| NodeOffset.PathThenStart | f2fsj/node.c:677-749 | the direct node on a block's path starts at the block less its slot |
| NodeOffset.StartThenPath | f2fsj/node.c:677-749 | every slot of every direct node is found again from its block index |
| NodeOffset.PathWalks | f2fsj/node.c:677-754 | every step of the path follows a pointer of the node before to the child with that preorder number, down to a direct node |
| NodeOffset.PathExists | f2fsj/node.c:731-746 | there is no path exactly from max_inode_blocks on |
| NodeOffset.MaxIsEnd | f2fsj/data.c:1852-1869 | the loop-free sum is the width of all direct nodes |
| VictimSearch.Selector.Search | f2fsj/gc.c:704-794 | examines exactly the first max_search dirty segments in circular order from the last victim, returns the cheapest eligible one and moves the resume point, to 0 if the search ran out of segments |
| VictimSearch.CheapestOfAll | f2fsj/gc.c:704-794 | with max_search at the number of dirty segments the victim is the cheapest eligible of all |
| VictimSearch.CandidatesDistinct | f2fsj/gc.c:711-731 | no dirty segment is examined twice across the wrap |
| VictimSearch.CandidatesAreDirtyOnes | f2fsj/gc.c:711-731 | every dirty segment, and nothing else, is a candidate |
| VictimSearch.CandidatesCount | f2fsj/gc.c:221-246 | the number of candidates does not depend on the start |
| VictimSearch.FindNextBit | f2fsj/gc.c:716-718 | the next set bit, or the size |
| AclCodec.RoundTrip | f2fsj/acl.c:47-166 | every valid list is read back as written and the size reported is the number of bytes |
| AclCodec.EntryLayout | f2fsj/acl.h:19-28 | tag and permissions take two bytes each and the id of a named entry four, low byte first |
| AclCodec.EncodedLayout | f2fsj/acl.c:113-165 | version 1 in four bytes, then the entries back to back in order |
| AclCodec.DecodeExactly | f2fsj/acl.c:47-108 | a value is accepted as a list exactly if it is its encoding and the inferred count is right; what lies past the end never matters |
| AclCodec.CountInvertsSize | f2fsj/acl.c:17-45 | f2fs_acl_count inverts f2fs_acl_size and rejects every other size |
| AclCodec.SizeIsRight | f2fsj/acl.c:17-28 | the size formula is right exactly for lists with min(count, 4) short entries |
| AclCodec.ValidHasFourShorts | f2fsj/acl.c:17-28 | a valid list has min(count, 4) short entries |
| AclCodec.ToDisk | f2fsj/acl.c:110-166 | writes the encoding, or fails exactly on an unknown tag |
| AclCodec.FromDisk | f2fsj/acl.c:47-108 | the cursor loop computes the decoding |

## Left out

- The journal file writer, replay and the applying of logs: the writer's loop advances its start inside its own bound and replay is not called, so no durability statement follows.
- Segment allocation, the segment information table, the node address table, fsync recovery, quota, encryption, inline data, xattr storage and ioctl dispatch.
- CRC, the directory hash and the compressors: the first is assumed to be passed by complete checkpoint blocks only, the others are arbitrary functions.
- Mounting without barriers, flushing several devices, and the further sanity checks of a selected checkpoint.
- Directory levels and block indices past 32 bits, I/O errors in directory operations, case folding and encrypted names.
- Rebalancing and colours of the red-black tree, the list of trees of evicted inodes, the read-only compressed extent variant and 32-bit page offsets.
- Moving ranges between files, the roll-back of an exchange that fails half way through a chunk, and zeroing the part of the last page past the end.
- Compressed files: block addresses that fail validation, and a failing disk quota apart from running short of blocks.
- Sections of more than one segment, the cost-benefit and age-based policies, and the choice of policy in the victim search.
- Inheritance and mode changes of access control lists, and user namespaces other than the initial one.
- LayPack: requires that no orphan slot is reserved but unused, which holds because checkpoints exclude the operations that reserve.
- ReadOutBlkaddrs: a missing dnode is not told apart from one whose slots are all empty.
- WriteRawPages: requires all pages of a compressed cluster, as the preparation of an overwrite brings them in.
