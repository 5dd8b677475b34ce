# Verified models of the teaching kernel and its companions

A Dafny verification of the parts of this repository that keep state in linked structures, memory words and
disk blocks: the minix file system layer (block cache, disk queue, zone tree, inodes, path names, bitmaps), the
three-level memory allocator, fork and copy-on-write page faults of the multi-tasking kernel, and four
self-contained cores of the user library and the other programs (binary heap, barrier litmus test, circular
list, tokeniser and number printing).  `dafny verify dfyconfig.toml` checks all of it.

## How the files fit together

Each subsystem is a specification, a class that follows the source statement by statement and is proved to
perform the specified steps, and theorems about whole runs of those steps.

- **Block cache.** `CacheModel` says what get_block and release_block do to owners, keys and contents;
  `CacheRuns` composes them.  `Buffers`, `FreeRing` and `HashTable` are the links themselves; `BufferCache` puts
  them together with the disk queue and is proved against `CacheModel`.
- **Disk queue.** `DiskModel` is the request ring with the drive behind it, `DiskQueueRuns` any number of calls and
  interrupts, each as a whole, `DiskRuns` the kernel thread and the interrupt handler interleaved step by step,
  `HardDisk` the code, `AtaRegisters` the address split.
- **Allocator.** `Ram` is byte memory with lists threaded through it, `ArenaModel` the partition of the managed
  range into free, live and lost pieces, `ArenaSafety` what every operation and every run keeps, `Allocator` the
  code, `LogSize` the size macro.
- **Files.** On the side of the volume, `ZoneTree` and `ZoneFlattening` are get_zone and its reference, `InodeModel`
  inodes and directories, `PathModel` path names.  On the side of the cache, `CacheClient` says what a client that
  borrows blocks may rely on, `Readings` and `PathReadings` what is read through the cache block by block and how
  that relates to the volume, `IndexBytes` the same in terms of the bytes of the blocks, `IndexLoss` which index
  blocks a walk can lose, `InodeStore` what storing an inode does, `CacheExecution` runs of cache calls.  `Zones`,
  `Inodes` and `PathWalk` are the code.  `BitmapModel` and `Bitmaps` are the allocation bitmaps.
- **Fork and paging.** `PageEntries` and `AddressSpaces` are the copy-on-write address spaces seen from above,
  `PageTables` directories and tables in memory and their owners, `Isolation` the contents of pages over runs,
  `Tasks` the task records and lists of children, `Paging` the code, `CopyOnWrite` a fork and the child's first
  store, `Boot` the start from zeroed memory.
- **Self-contained cores.** `Litmus`; `BinaryHeap` and `HeapDraining`; `EntityList`; `TextRuns` and `Tokens`;
  `Numerals`, `Print` and `Formatting`.  `Machine` holds the shared vocabulary.

## Where the code does not do what its documentation or callers expect

Each is kept as the code has it, with the exact condition or a concrete input.

- A cache hit on the last free buffer leaves it in the ring, and a hit on a held block hands it out twice
  (`CacheModel.GetKeepsOwnershipIff`).
- A recycled buffer is never written back, so a modified block that was released can be lost
  (`CacheModel.GetKeepsLogicalIff`); get_zone itself can lose an index block it needs later
  (`IndexLoss.ZoneRightIff`, `IndexLoss.LostIndexBlockMisleads`).
- do_request drops its lock while the command is still in flight; a request queued behind another one issues the
  other's command again, and from then on buffers get each other's blocks (`DiskModel.AtaReadSettledIff`,
  `DiskModel.SecondReadInFlightDeliversWrongBlock`, `DiskQueueRuns.OwnBlocksIff`).  The drive can then interrupt on an
  empty ring (`DiskRuns.EmptyRingInterruptIff`, `DiskModel.InterruptOnEmptyRing`).
- A sector address of 2^28 or more reaches the drive modulo 2^28 (`AtaRegisters.SplitNamesSectorIff`).
- init_memory never ends for end = 0xFFFFF000 (`Allocator.InitLoopCanEndIff`).
- _alloc_bit answers 0 both for bit 0 and for a full map (`BitmapModel.ZeroMeansFullIff`), and alloc_inode installs
  the inode without looking at the answer.
- minixfs's strncmp answers -1 for two equal strings shorter than n (`PathWalk.StrNCmp`).
- alloc_object ignores the size while its list has blocks (`ArenaSafety.OtherSizeFitsIff`).
- page_copy leaves out the last word of the page (`Paging.CopyExactIff`).
- A fault on a page the kernel uses at its own address breaks the identity the kernel relies on
  (`AddressSpaces.FaultKeepsIdentityIff`).
- num2str prints every negative number as 0 (`Print.NumberReadsBackIff`); vsprintf drops an unknown directive, so
  `%%` prints nothing (`Formatting.OneDirective`).
- IntNode.Less subtracts, and the difference can wrap around (`HeapDraining.IntLessIff`, `HeapDraining.IntLessCircle`).
- After a fault on a page, the frame given to the task stays readable for every task at the frame's own address, and
  what the task stores there is seen at that address and nowhere else (`Isolation.FaultExposes`, `Isolation.StoreSeenIff`).
- remove_entity trusts the entity's links: one linked to itself empties the list it is given, one with stale links
  into the list can break it (`EntityList.ListHead.RemoveEntity`), and a list whose first entity is removed through
  another head keeps a dangling head (`EntityList.RemoveThroughOtherHead`); pop_front leaves such links behind.

## Model

| member | source | states |
|---|---|---|
| `CacheModel.GetKeepsOwnershipIff` | program/sub-sys/minixfs/buffer.c:105-148 | get_block leaves every buffer owned once, by the free ring or by one client, exactly when nobody holds the block and, on a hit, the ring has a second buffer |
| `CacheModel.ReleaseKeepsOwnershipIff` | program/sub-sys/minixfs/buffer.c:193-218 | release_block leaves every buffer owned once exactly when the buffer was held |
| `CacheModel.GetReturnsBlock` | program/sub-sys/minixfs/buffer.c:150-159 | the buffer returned is keyed by the requested block and carries its resident contents, or the disk's; no block is cached twice |
| `CacheModel.GetKeepsLogicalIff` | program/sub-sys/minixfs/buffer.c:105-148 | what every block reads as stays the same exactly when the call hits or the recycled buffer does not differ from the disk: there is no write-back |
| `CacheRuns.RunSafe` | program/sub-sys/minixfs/buffer.c:53-237 | over every disciplined run of get, release and client writes each buffer is free once or held once, never both, and keys stay unique |
| `CacheRuns.FreeRingOldestFirst` | program/sub-sys/minixfs/buffer.c:166-237 | over every run the free ring is ordered by time of release |
| `CacheRuns.VictimReleasedLongestAgo` | program/sub-sys/minixfs/buffer.c:166-190 | the buffer a miss recycles is the free buffer released longest ago |
| `CacheRuns.StepKeepsBlockIff` | program/sub-sys/minixfs/buffer.c:105-218 | one call changes what a block reads as exactly when it overwrites the block or recycles its dirty buffer |
| `CacheRuns.QuietRunKeepsBlock` | program/sub-sys/minixfs/buffer.c:105-218 | whatever happens to other blocks, an undisturbed block reads the same at the end of a run |
| `FreeRing.FreeList.Take` | program/sub-sys/minixfs/buffer.c:166-190 | buffer_new detaches the head of the circular list, or returns NULL from an empty one |
| `FreeRing.FreeList.Append` | program/sub-sys/minixfs/buffer.c:204-215 | release_block links the buffer in as the last of the circular list |
| `FreeRing.FreeList.Remove` | program/sub-sys/minixfs/buffer.c:220-237 | remove_from_freelist takes the buffer out wherever it stands, keeps the order of the rest, and leaves a ring of one alone |
| `FreeRing.LinkAll` | program/sub-sys/minixfs/buffer.c:32-48 | init_block_buffer chains the buffers of the page into one circle |
| `HashTable.BufferTable.Find` | program/sub-sys/minixfs/buffer.c:73-85 | _get_hash_entity finds the one buffer with the key, or NULL exactly if there is none |
| `HashTable.BufferTable.Remove` | program/sub-sys/minixfs/buffer.c:53-71 | _remove_hash_entity forgets the buffer's key, keeps every other chain and clears the buffer's links, also for a buffer never keyed |
| `HashTable.BufferTable.Put` | program/sub-sys/minixfs/buffer.c:87-103 | _put_hash_entity files the buffer under its key in the bucket of its hash, evicting a buffer with the same key |
| `HashTable.BufferTable.Rekey` | program/sub-sys/minixfs/buffer.c:138-142 | reusing a buffer forgets its old block and files it under the new one, all chains staying doubly linked and exact |
| `BufferCache.InitBlockBuffer` | program/sub-sys/minixfs/buffer.c:26-51 | the initial cache: 128 free buffers, none keyed, ring circular, disk queue at rest |
| `BufferCache.BlockCache.Lookup` | program/sub-sys/minixfs/buffer.c:105-148 | _get_block with a buffer in the ring: which buffer, what the ring and the keys become, and its status; the retry loop ends on its first pass |
| `BufferCache.BlockCache.Attempt` | program/sub-sys/minixfs/buffer.c:110-144 | one pass of the loop: with an empty ring nothing changes and it retries, otherwise it yields the buffer of the specification |
| `BufferCache.BlockCache.GetBlock` | program/sub-sys/minixfs/buffer.c:150-159 | get_block on the linked structures, the disk queue and the interrupt handler performs exactly the specified step |
| `BufferCache.BlockCache.ReleaseBlock` | program/sub-sys/minixfs/buffer.c:193-218 | release_block performs exactly the specified step |
| `BufferCache.BlockCache.WriteData` | program/sub-sys/minixfs/inodes.c:215-219 | a client's write into the buffer it holds changes that buffer's contents and nothing else of the cache |
| `DiskModel.InterruptRetiresOldest` | program/sub-sys/minixfs/hard_disk.c:172-195 | with any number of requests waiting and of commands in flight the handler retires exactly the oldest request, puts the delivered block into its buffer, touches no other, and issues the next; if one command was in flight, for that request, the block is its own |
| `DiskModel.InterruptOnEmptyRing` | program/sub-sys/minixfs/hard_disk.c:172-195 | an interrupt on an empty ring whose slot has been used delivers the block into the buffer of that old request, and QUEUE_COUNT - 1 old requests seem to wait afterwards |
| `DiskModel.AtaReadSettledIff` | program/sub-sys/minixfs/hard_disk.c:117-170 | ata_read keeps one command in flight, for the head request, exactly when the ring was empty |
| `DiskModel.SecondReadInFlightDeliversWrongBlock` | program/sub-sys/minixfs/hard_disk.c:145-195 | a second ata_read before the first interrupt re-issues the first command and delivers the wrong block |
| `DiskQueueRuns.EveryQueueRunIsFifo` | program/sub-sys/minixfs/hard_disk.c:117-195 | over every run of ata_read calls, with up to QUEUE_COUNT - 1 requests waiting, and interrupts, the requests asked are those retired followed by those waiting, in order |
| `DiskQueueRuns.OwnBlocksIff` | program/sub-sys/minixfs/hard_disk.c:117-195 | over every such run, any buffer being asked for again under another block number as get_block does, all retired buffers got the blocks they wanted exactly if from the first request on that found another one waiting all want the block of the one before; once the ring is empty the drive owes no interrupt exactly if none found another one waiting |
| `DiskQueueRuns.DistinctBlocksIff` | program/sub-sys/minixfs/hard_disk.c:117-195 | if no request is asked while another one for the same block waits, all retired buffers got their own exactly if none of their requests found another one waiting |
| `DiskRuns.EveryRunIsFifo` | program/sub-sys/minixfs/hard_disk.c:117-195 | with do_request taken step by step, its locals kept across interrupts, and further requests queued with or without waiting: until an interrupt meets an empty ring, the requests queued are those retired followed by those waiting |
| `DiskRuns.EmptyRingInterruptIff` | program/sub-sys/minixfs/hard_disk.c:117-195 | at any point of any such run the drive can interrupt on an empty ring exactly if nothing waits and more interrupts left a request waiting than calls of do_request found nothing to issue |
| `DiskRuns.EveryRunIsOrderly` | program/sub-sys/minixfs/hard_disk.c:117-195 | if the thread waits for each request, then for every placement of the interrupt: the handler never meets an empty ring, at most one command is in flight, answers are the requests in order and once each, at rest the ring is empty and unlocked, and no buffer is busy but the one being read |
| `DiskRuns.ReturnedBufferHoldsBlock` | program/sub-sys/minixfs/buffer.c:154-158 | when get_block stops waiting its buffer is free and holds the block it asked for |
| `DiskRuns.WaitAlwaysEnds` | program/sub-sys/minixfs/buffer.c:239-248 | while wait_for spins the drive owes an interrupt, and serving it ends the wait |
| `AtaRegisters.SplitNamesSectorIff` | program/sub-sys/minixfs/hard_disk.c:70-90 | the drive sees the address modulo 2^28; it is the intended sector of the master drive exactly below 2^28 |
| `AtaRegisters.OrE0IsBitwise` | program/sub-sys/minixfs/hard_disk.c:78 | the arithmetic form of 0xE0 | byte is the bitwise one |
| `HardDisk.DiskQueue.constructor` | program/sub-sys/minixfs/hard_disk.c:51-68 | init_disk closes the requests of a page into a ring, unlocked and empty |
| `HardDisk.DiskQueue.AtaRead` | program/sub-sys/minixfs/hard_disk.c:117-129 | ata_read on a request ring with room does exactly the specified step; with interrupts enabled, from rest, it ends there or after the one interrupt |
| `HardDisk.DiskQueue.DoRequest` | program/sub-sys/minixfs/hard_disk.c:145-170 | do_request takes the lock, issues the head request if there is one, drops the lock; the interrupt may fall anywhere after the command |
| `HardDisk.DiskQueue.OnDiskHandler` | program/sub-sys/minixfs/hard_disk.c:172-195 | on_disk_handler performs exactly the specified retirement and issue, a buffer with a delayed write keeping its status |
| `HardDisk.DiskQueue.WaitFor` | program/sub-sys/minixfs/buffer.c:239-248 | wait_for returns with the buffer free once the one outstanding interrupt has been served |
| `HardDisk.DiskQueue.Read` | program/sub-sys/minixfs/buffer.c:154-157 | ata_read then wait_for delivers the block, frees the buffer, leaves the queue at rest and every other buffer alone |
| `Ram.ListKept` | program/sub-sys/mem/memory.c:43-68 | an intrusive list stands as long as no byte of its link words changes |
| `Ram.ListPushed` | program/sub-sys/mem/memory.c:51-54 | writing the old head into the first word of a block apart from the list makes it the list's new first block |
| `ArenaSafety.PopKeepsInv` | program/sub-sys/mem/memory.c:105-107 | taking a block from a list keeps the partition of the memory into free, live and tail pieces |
| `ArenaSafety.PushKeepsInv` | program/sub-sys/mem/memory.c:118-122 | giving a live block back keeps it |
| `ArenaSafety.SplitKeepsInv` | program/sub-sys/mem/memory.c:164-175 | cutting a page into blocks and a tail keeps it, for slices and for objects of any size up to a page |
| `ArenaSafety.EveryByteHasOneOwner` | program/sub-sys/mem/memory.c:15-181 | over every run of page, slice and object calls each managed byte lies in exactly one piece: free on one list, live, or a page tail |
| `ArenaSafety.AllocatedBlockIsFresh` | program/sub-sys/mem/memory.c:93-162 | whatever is handed out has the right size and alignment, lies inside one managed page and inside what was one free block, and overlaps nothing live |
| `ArenaSafety.OtherSizeFitsIff` | program/sub-sys/mem/memory.c:149-162 | a block from a non-empty object list has the bytes asked for, whatever size is passed, exactly if the size is at most that of the list |
| `ArenaSafety.ServedWhileBlocksLeft` | program/sub-sys/mem/memory.c:93-162 | at any point of any run of calls a size is served exactly if its list or the page list has a block |
| `ArenaSafety.EveryBlockIsServed` | program/sub-sys/mem/memory.c:93-162 | asking for one size again and again is served exactly as often as the list has blocks and the free pages have room for more |
| `ArenaSafety.FreedComesBack` | program/sub-sys/mem/memory.c:110-130 | a block given back is the next one its list hands out, and handing it out again restores the state before it was given back |
| `Allocator.MemoryManager.InitMemory` | program/sub-sys/mem/memory.c:15-31 | init_memory puts every page of the range but page 0 on the list, and does nothing on a wrong range |
| `Allocator.InitLoopCanEndIff` | program/sub-sys/mem/memory.c:27 | the loop of init_memory can end exactly if the aligned end is at most 0xFFFFE000 |
| `Allocator.MemoryManager.AllocPage` | program/sub-sys/mem/memory.c:33-41 | alloc_page pops the page list in memory, NULL exactly when it is empty |
| `Allocator.MemoryManager.FreePage` | program/sub-sys/mem/memory.c:43-56 | free_page pushes the page; NULL or a misaligned address is refused and nothing changes |
| `Allocator.MemoryManager.GetFreeSpace` | program/sub-sys/mem/memory.c:58-68 | the walk ends and counts the free pages exactly |
| `Allocator.MemoryManager.Malloc` | program/sub-sys/mem/memory.c:93-108 | malloc is NULL exactly on a bad size or if neither the slice list nor the page list has a block, and then nothing changes; else it hands out the first slice of the list, or the last one of a freshly carved page whose other slices join the list, a block that was not live before, all live blocks staying live |
| `Allocator.MemoryManager.FreeN` | program/sub-sys/mem/memory.c:110-124 | mfree_n and free_object_n thread the consecutive blocks onto the list, last one first, leaving all other lists as they are |
| `Allocator.MemoryManager.Mfree` | program/sub-sys/mem/memory.c:126-130 | mfree pushes the slice; a bad size is refused and nothing changes |
| `Allocator.MemoryManager.AllocObject` | program/sub-sys/mem/memory.c:149-162 | alloc_object, as malloc, for objects of any size from 4 bytes to a page: NULL exactly if neither the object list nor the page list has a block |
| `Allocator.MemoryManager.FreeObject` | program/sub-sys/mem/memory.c:177-181 | free_object pushes the object |
| `Allocator.MemoryManager.ClientWrite` | program/sub-sys/mem/memory.c:33-181 | a client writing anywhere inside a block it holds leaves all nine intrusive lists exactly the same |
| `LogSize.Log` | program/sub-sys/mem/memory.h:9-17 | LOG_SIZE is the least exponent whose power of two reaches the value |
| `LogSize.SliceFitsIff` | program/sub-sys/mem/memory.h:9-17 | malloc(LOG_SIZE(n)) is in range exactly for 17 to 1024 bytes, and then gives at least n and fewer than 2n |
| `ZoneTree.OffsetsReachable` | program/sub-sys/minixfs/zones.c:68-119 | every 32-bit offset falls in a branch that assigns block_num, every index stays in its block, the triple-indirect top index stays below 64 |
| `ZoneTree.PathDeterminesOffset` | program/sub-sys/minixfs/zones.c:68-119 | the index path and the offset in the block determine the byte offset |
| `ZoneTree.EntryIff` | program/sub-sys/minixfs/zones.c:80 | entry i of an index block is w exactly if its bytes 4 * i to 4 * i + 3 are those of w, lowest first |
| `ZoneFlattening.ZoneBlockIsFlatLookup` | program/sub-sys/minixfs/zones.c:61-122 | get_zone equals lookup in the written-out list of the 7 + 256 + 256^2 + 256^3 blocks of the file |
| `CacheClient.TakeUnheld` | program/sub-sys/minixfs/buffer.c:150-159 | taking an unheld block yields a buffer nobody had, with what the block read as; every block still reads as before exactly if no modified buffer was recycled |
| `CacheClient.BorrowIsQuiet` | program/sub-sys/minixfs/zones.c:79-81 | fetching a block and giving it back is invisible to every other holder, whatever released modified blocks are in the ring; none of them is lost exactly if none was recycled |
| `CacheExecution.Execute` | program/sub-sys/minixfs/buffer.c:53-237 | every disciplined run of get_block, release_block and writes leaves the linked structures in the state the specified run ends in |
| `IndexLoss.ZoneRightIff` | program/sub-sys/minixfs/zones.c:61-122 | get_zone through the cache finds the block the volume has, as its blocks read at the start: always in the direct and single indirect branches; in the double one exactly if fetching the first index block does not take the modified buffer of the second; in the triple one exactly if neither of the first two takes the third, or, the second taken, the walk comes to the same entry by chance |
| `IndexLoss.CleanLedRight` | program/sub-sys/minixfs/zones.c:61-122 | with no modified block in the ring that condition always holds |
| `Readings.ZoneShown` | program/sub-sys/minixfs/zones.c:61-122 | it is enough that no modified buffer at all was recycled on the way |
| `IndexLoss.LostIndexBlockMisleads` | program/sub-sys/minixfs/zones.c:79-117 | a walk whose first miss recycles the modified second index block goes on with the disk's old contents, not with what was released |
| `Readings.SearchShown` | program/sub-sys/minixfs/path.c:13-41 | a directory search through the cache gives the volume's answer if no modified buffer was recycled on the way |
| `Zones.GetZone` | program/sub-sys/minixfs/zones.c:61-122 | get_zone running on the cache performs exactly the specified borrowings and answers, with the offset in the block, the start of the partition plus the zone number the inode's entry or the bytes of one, two or three index blocks lead to, modulo 2^32 |
| `IndexBytes.ZoneByBytes` | program/sub-sys/minixfs/zones.c:61-122 | the same of the reading get_zone is specified by: which entry of the inode is taken, at which place of each index block the next number stands, lowest byte first |
| `IndexBytes.EntryByBytes` | program/sub-sys/minixfs/path.c:13-24 | the directory entry read at a position is the one whose 2 bytes of inode number and 30 bytes of name lie there |
| `InodeModel.PatchedSlots` | program/sub-sys/minixfs/inodes.c:216-218 | copying an inode into its slot makes it readable there and leaves the other fifteen of the block alone |
| `InodeModel.InodeReadsBack` | program/sub-sys/minixfs/inodes.h:8-18 | an inode written out field by field in the order of struct PyIndexNode reads back with its mode, size and ten zone numbers |
| `InodeModel.EntryReadsBack` | program/sub-sys/minixfs/path.h:6-9 | a directory entry written out as inode number and name reads back at its offset |
| `InodeModel.IsDirBits` | program/sub-sys/minixfs/path.c:29 | S_ISDIR holds exactly if the four type bits are 0040000 |
| `InodeModel.InodePlace` | program/sub-sys/minixfs/inodes.c:182-183 | inode idx, counted from 1, lies 64 * (idx - 1) bytes into the inode table |
| `InodeModel.InodesApart` | program/sub-sys/minixfs/inodes.c:182-183 | two different inode numbers never share a block and slot |
| `InodeModel.SearchFindsFirstPrefix` | program/sub-sys/minixfs/path.c:26-41 | a search of a directory of any size answers with the first entry that has the component as a prefix, 0 if none has; 0 for what is no directory |
| `Inodes.InodeTable.NewNode` | program/sub-sys/minixfs/inodes.c:174-179 | a node comes from the free list or is new; it is nobody's |
| `Inodes.InodeTable.GetInode` | program/sub-sys/minixfs/inodes.c:157-199 | get_inode of an inode that is not resident returns the 64 bytes at 64 * (idx - 1) of the inode table as they read at that moment, changed or not, makes it resident, locked and with one reference, and borrows the block |
| `Inodes.InodeTable.ReleaseInode` | program/sub-sys/minixfs/inodes.c:201-222 | release_inode ends residency, puts the node on the free list and its bytes at 64 * (idx - 1) of the inode table, where no other byte of the block changes |
| `Inodes.ReleaseAndGetBack` | program/sub-sys/minixfs/inodes.c:157-222 | release_inode, any calls that neither write nor lose the block, get_inode: the node comes back with the bytes released, and the other fifteen inodes of the block read as before |
| `InodeStore.StoredSlots` | program/sub-sys/minixfs/inodes.c:210-219 | storing an inode changes its slot alone and is invisible to every holder |
| `InodeStore.StoredInTable` | program/sub-sys/minixfs/inodes.c:210-219 | the same byte by byte: the inode's 64 bytes of the inode table, and no other byte of their block |
| `InodeStore.UnchangedStoreIsBorrow` | program/sub-sys/minixfs/inodes.c:210-219 | releasing an inode nobody changed is the same as borrowing its block |
| `InodeStore.StoredInodeReadsBack` | program/sub-sys/minixfs/inodes.c:185-219 | after release_inode, as long as the block is not disturbed, get_inode would find what was released, and the other fifteen as before |
| `PathModel.WalkIsFold` | program/sub-sys/minixfs/path.c:58-72 | the walk is the left fold of directory search over the components |
| `PathModel.ComponentsAreTheName` | program/sub-sys/minixfs/path.c:58-72 | the components are the name cut at its slashes; joined again they are the name, up to one slash at its end |
| `PathReadings.WalkShown` | program/sub-sys/minixfs/path.c:43-75 | name_to_inode on the cache gives the answer of the walk over the volume as its blocks read at the start, if no modified buffer was recycled on the way |
| `PathReadings.CleanWalk` | program/sub-sys/minixfs/path.c:43-75 | with no modified block in the ring it always does, and every block reads as before |
| `PathReadings.CleanFold` | program/sub-sys/minixfs/path.c:43-75 | and then the answer is the left fold of directory search over the components of the name |
| `PathWalk.StrStrSlash` | program/sub-sys/minixfs/include/string.h:55-76 | strstr with the needle "/" finds the first slash or the end |
| `PathWalk.StrNCmp` | program/sub-sys/minixfs/include/string.h:38-53 | strncmp is 0 exactly if n characters agree before a NUL; otherwise the sign of the first difference of signed characters, -1 if both strings end there |
| `PathWalk.NextFile` | program/sub-sys/minixfs/path.c:13-24 | _next_file delivers the entry whose bytes lie at a byte position of the directory, found through get_zone, and advances by one entry, performing exactly the specified borrowings |
| `PathWalk.SearchFile` | program/sub-sys/minixfs/path.c:26-41 | _search_file on the cache finds what the specified borrowings lead to |
| `PathWalk.StepInto` | program/sub-sys/minixfs/path.c:59-66 | one component: get_inode, search, release_inode, as specified; nothing stays resident |
| `PathWalk.NameToInode` | program/sub-sys/minixfs/path.c:43-75 | name_to_inode follows a name that begins with a slash from inode 1 of device 0, any other from the current inode; it returns the end of the specified walk, leaves the cache as that walk does and the inode table as it was; from a clean ring the answer is the left fold of directory search over the components |
| `BitmapModel.SetBitSetsOne` | program/sub-sys/minixfs/inodes.h:45-58 | _set_bit sets the bit _get_bit reads, and no other |
| `BitmapModel.BitPlace` | program/sub-sys/minixfs/inodes.h:45-58 | bit n of a bitmap is tested with 1 << (n % 8) in byte n / 8 counted through the blocks |
| `BitmapModel.MarkTakesOne` | program/sub-sys/minixfs/inodes.c:54-56 | setting the bit found takes the returned number and no other |
| `BitmapModel.OneCall` | program/sub-sys/minixfs/inodes.c:47-62 | a call takes its answer; a successful one raises the number of set bits by one |
| `BitmapModel.AllocationsAreDistinct` | program/sub-sys/minixfs/inodes.c:47-62 | with bit 0 pre-set, over any run an answer is 0 exactly when the bitmap is full, and the others strictly increase |
| `BitmapModel.RunTakesItsAnswers` | program/sub-sys/minixfs/inodes.c:47-62 | after any number of calls exactly the answers have been taken in addition |
| `BitmapModel.ZeroMeansFullIff` | program/sub-sys/minixfs/inodes.c:59-61 | without the pre-set bit the answer 0 means full exactly if bit 0 was taken or there is no block |
| `Bitmaps.InitMap` | program/sub-sys/minixfs/zones.c:28-30 | with just enough free buffers, init_inodes and init_zones end up holding as many of the bitmap's blocks as the limit allows, in different buffers, each with what it read as when fetched |
| `Bitmaps.LoadedAsBefore` | program/sub-sys/minixfs/zones.c:28-30 | that is what the blocks read as at the start, as long as no modified buffer was recycled meanwhile |
| `Bitmaps.FindClear` | program/sub-sys/minixfs/inodes.c:50-60 | the three loops find the least clear bit over all blocks, or the bitmap is full |
| `Bitmaps.AllocBit` | program/sub-sys/minixfs/zones.c:34-50 | _alloc_bit in place: the least clear number is returned and set, nothing else of the cache changes |
| `Bitmaps.AllocZone` | program/sub-sys/minixfs/zones.c:52-59 | alloc_zone hands out the least free zone number |
| `Bitmaps.AllocInode` | program/sub-sys/minixfs/inodes.c:125-147 | alloc_inode makes the least free number, cut to 16 bits, resident; with at most eight bitmap blocks nothing is cut |
| `PageEntries.DowngradeKeepsFrame` | program/sub-sys/multi_task/knl_fork.c:68-72 | PAGE_WRITE is cleared above entry 255 and every other bit of the entry stays, above and below |
| `PageEntries.EntryBits` | program/sub-sys/multi_task/knl_fork.c:62-71 | the arithmetic forms of the tests for PAGE_PRESENT and PAGE_WRITE and of & ~PAGE_WRITE are the bitwise ones; the frame is the upper twenty bits |
| `PageEntries.FullAccessIsBitwise` | program/sub-sys/multi_task/knl_fork.c:66 | the arithmetic form of PAGE_FLOOR(page) | PAGE_WRITE | PAGE_USER | PAGE_PRESENT is the bitwise one |
| `AddressSpaces.ForkSharesPages` | program/sub-sys/multi_task/knl_fork.c:50-78 | the child gets exactly the parent's present pages at the same frames, in both with every bit of the entry but PAGE_WRITE as before and PAGE_WRITE left only below entry 256; other tasks keep their spaces |
| `AddressSpaces.FaultChangesOneEntry` | program/sub-sys/multi_task/page.c:26-37 | a fault gives that page of that task the first free frame, present, writable and the user's, and changes no other entry of any task |
| `AddressSpaces.FaultKeepsIdentityIff` | program/sub-sys/multi_task/page.c:34-37 | a fault leaves the kernel's remaining frames at their own addresses exactly when the faulting page is not one of them |
| `AddressSpaces.RunKeepsInv` | program/sub-sys/multi_task/knl_fork.c:50-78 | over every run of forks and write faults no frame is writable at two shared pages, and kernel frames stay at their own addresses only |
| `AddressSpaces.RunKeepsTranslation` | program/sub-sys/multi_task/page.c:19-40 | a task's page shows the same frame until the task itself faults on it |
| `Isolation.PagesAreIsolated` | program/sub-sys/multi_task/knl_fork.c:50-78 | over every run of forks, write faults and stores, what a task sees at a page of its own is changed by its own stores there, and by its own faults there in the last word, and by nothing anybody else does; its own are the shared pages but those that still show the frame at a former kernel address |
| `Isolation.StepChangesIff` | program/sub-sys/multi_task/knl_fork.c:50-78 | one step changes what a task sees at a shared page outside the kernel's frames in no other way, exactly unless another page's store changes a word of the same frame, which is the one at the seeing page's own address |
| `Isolation.FaultExposes` | program/sub-sys/multi_task/page.c:26-37 | after a fault every task sees, at the new frame's own address, the copy the faulting task got |
| `Isolation.StoreSeenIff` | program/sub-sys/multi_task/page.c:26-37 | a store that changes a shared page is seen at another page exactly if that page's address is the frame's own and still leads to it |
| `Isolation.ChildSeesParent` | program/sub-sys/multi_task/knl_fork.c:96-107 | a forked child starts out seeing what its parent sees |
| `Isolation.StoreOutsideKernel` | program/sub-sys/multi_task/knl_fork.c:68-71 | after the first fork no store of a task reaches a frame of the kernel |
| `PageTables.TablesDisjoint` | program/sub-sys/multi_task/knl_fork.c:50-78 | no frame of one task's directory or tables serves another task or is free |
| `PageTables.TableCopiedEntries` | program/sub-sys/multi_task/knl_fork.c:63-74 | setting up one table gives the child the parent's pages there and changes no other entry of any task; a link in a free page reads as not present |
| `Tasks.SetupLinks` | program/sub-sys/multi_task/knl_fork.c:80-94 | setup_links appends the new task to the parent's list of children; all other lists stay |
| `Paging.Paging.AllocPage` | program/sub-sys/multi_task/memory.c:35-43 | alloc_page takes the first page of the list, which is zero but for its link, or returns NULL |
| `Paging.Paging.CopyTable` | program/sub-sys/multi_task/knl_fork.c:67-73 | the inner loop downgrades the parent's row and overlays the child's, in place |
| `Paging.Paging.SetupPageTables` | program/sub-sys/multi_task/knl_fork.c:50-78 | setup_page_tables: in every entry of both tasks all bits but PAGE_WRITE as in the parent's, PAGE_WRITE only below entry 256, all other tasks and the contents of all user frames unchanged, one page taken per present directory entry, every frame still with one owner |
| `Paging.Paging.KnlFork` | program/sub-sys/multi_task/knl_fork.c:96-107 | knl_fork performs exactly the specified fork, keeps the contents of user frames, gives the child the saved registers but for EAX = 0 and a stack of its own, numbers it and makes it the parent's last child |
| `Paging.Paging.PageCopy` | program/sub-sys/multi_task/page.c:8-17 | page_copy copies 1023 words and leaves the last |
| `Paging.Paging.OnPageFault` | program/sub-sys/multi_task/page.c:19-40 | a fault on a present page changes that one entry of that task to a newly taken frame holding the page's first 1023 words; no other frame but the table changes |
| `Paging.CopyExactIff` | program/sub-sys/multi_task/page.c:13-16 | the private copy has the page's first 1023 words and 0 for the last, so it shows the same page exactly if that word was 0 |
| `Paging.Paging.UserStore` | program/sub-sys/multi_task/knl_fork.c:68-72 | a task's store through its directory and table to a page left writable changes one word of the frame found there, no entry and no other frame |
| `CopyOnWrite.FaultThenStore` | program/sub-sys/multi_task/page.c:19-40 | a fault and the store that is then run again: the task sees the copy with its word in it, and every other page of any task's own reads as before |
| `CopyOnWrite.StoreAfterFault` | program/sub-sys/multi_task/page.c:19-40 | the same of on_page_fault followed by the store, run on directories, tables and frames in memory |
| `CopyOnWrite.ForkAndStore` | program/sub-sys/multi_task/knl_fork.c:50-107 | knl_fork, then the child's first store to a page of the parent's own: the parent sees what it saw before the fork, the child that page but for the last word, with its own word in it |
| `Boot.InitMemory` | program/sub-sys/multi_task/memory.c:16-33 | init_memory builds a list of exactly the pages of the range but page 0, and does nothing on a wrong range |
| `Boot.SetupFirstTask` | program/sub-sys/multi_task/task.c:149-174 | the first task gets the writable identity mapping of four megabytes in tables of its own |
| `Boot.StartMain` | program/sub-sys/multi_task/main.c:8-13 | memory from two to four megabytes and the first task, which maps pages 0 to 1023 to themselves with full access and nothing else, satisfy everything the runs of forks, faults and stores assume |
| `Litmus.SequentialNeverFails` | program/gcc/barrier/runtime_barrier.cpp:10-86 | for every interleaving and any number of rounds: start() never overlaps run1 or run2, end() sees r1 or r2 set, some thread can go on |
| `Litmus.BufferedCanFail` | program/gcc/barrier/runtime_barrier.cpp:15-30 | with store buffers the same threads have a run that reaches r1 == r2 == 0 |
| `BinaryHeap.Heap.Up` | program/struct/heap.go:42-51 | up restores heap order after an insertion at the bottom and keeps the nodes |
| `BinaryHeap.Heap.Down` | program/struct/heap.go:53-76 | down restores heap order after a replacement at the top and keeps the nodes |
| `BinaryHeap.Heap.Push` | program/struct/heap.go:78-81 | Push keeps heap order and adds exactly the node |
| `BinaryHeap.Heap.Pop` | program/struct/heap.go:83-90 | Pop keeps heap order, removes exactly the node it returns, and that is a minimum |
| `BinaryHeap.RootIsLeast` | program/struct/heap.go:42-76 | in a heap no node is less than the first |
| `HeapDraining.DrainingSorts` | program/struct/heap.go:83-90 | popping until empty gives back everything pushed, in order |
| `HeapDraining.Drain` | program/struct/heap.go:83-90 | calling Pop until the heap is empty gives exactly its nodes, sorted |
| `HeapDraining.SortThroughHeap` | program/struct/heap.go:78-90 | Push of any nodes into an empty heap and Pop of all of them sorts them |
| `HeapDraining.IntLessIff` | program/struct/heap.go:103-108 | IntNode.Less tells the smaller number exactly when the difference fits in an int |
| `HeapDraining.IntNodesOrdered` | program/struct/heap.go:103-108 | on nodes whose differences fit, Less is a strict total order and the minimum is the least number |
| `HeapDraining.IntLessCircle` | program/struct/heap.go:103-108 | three nodes on which Less runs in a circle |
| `TextRuns.RunsAreMaximal` | program/sub-sys/libc/include/string.h:84-111 | calling strsep until NULL yields exactly the maximal delimiter-free runs, from left to right |
| `TextRuns.TrimmedIsTheMiddle` | program/sub-sys/libc/include/string.h:113-134 | the trimmed text is the only stretch with trim characters all around it and none at its ends |
| `Tokens.Strsep` | program/sub-sys/libc/include/string.h:84-111 | one call in place: token, new pointer, and the single NUL written |
| `Tokens.Params` | program/sub-sys/libc/bash.c:91-95 | run_cmd's loop collects the first runs, each a string of its own in the buffer; only delimiters have been overwritten |
| `Tokens.Strim` | program/sub-sys/libc/include/string.h:113-134 | strim leaves the trimmed text at the pointer it returns, writing at most one NUL |
| `Numerals.NumeralReadsBack` | program/sub-sys/libc/usr/print.c:23-46 | reading back the digits gives the number, and they have no leading 0 |
| `Numerals.NumeralIsUnique` | program/sub-sys/libc/usr/print.c:23-46 | writing what was read gives the same digits |
| `Print.NumberReadsBackIff` | program/sub-sys/libc/usr/print.c:12-48 | hexadecimal reads back for every 32-bit number, decimal exactly for the non-negative ones; any other prints as 0 |
| `Print.FillDigits` | program/sub-sys/libc/usr/print.c:21-40 | each of the two loops leaves the digits in reverse in tmpbuf |
| `Print.Num2Str` | program/sub-sys/libc/usr/print.c:12-48 | num2str writes prefix and digits at the pointer and returns the pointer past them |
| `Formatting.OneDirective` | program/sub-sys/libc/usr/print.c:61-101 | up to its first directive a format is copied; %x, %X, %d, %i, %c and %s print the next argument in that form and the rest is formatted with the others; an unknown directive prints nothing and takes none |
| `Formatting.PrintedNumberReadsBackIff` | program/sub-sys/libc/usr/print.c:61-101 | a number printed by %x between two texts reads back always, by %d exactly if it is not negative |
| `Formatting.Vsprintf` | program/sub-sys/libc/usr/print.c:61-101 | vsprintf writes the formatted text and a NUL and nothing else |
| `EntityList.ListHead.PushBack` | program/sub-sys/libc/include/list.h:23-38 | push_back appends to the circular list |
| `EntityList.ListHead.PushFront` | program/sub-sys/libc/include/list.h:40-56 | push_front prepends |
| `EntityList.ListHead.PopFront` | program/sub-sys/libc/include/list.h:58-73 | pop_front takes the first entity, whose own links stay as they were; NULL from an empty list |
| `EntityList.ListHead.RemoveEntity` | program/sub-sys/libc/include/list.h:75-95 | remove_entity takes an entity of the list out where it stands; NULL links or an empty list change nothing; an entity not in the list leaves it alone exactly if it is not its own neighbour and its neighbours in the list, if any, already point to each other |
| `EntityList.RemoveThroughOtherHead` | program/sub-sys/libc/include/list.h:75-95 | removed through another list's head an entity leaves its own circle, whose head is still right exactly if the entity was not the first |

## Left out

- BufferCache.BlockCache.GetBlock: requires a non-empty free ring, because with an empty one the code spins forever or follows a NULL head; and a block below 2^27, because above it the drive reads another sector.
- BufferCache.BlockCache.ReleaseBlock: requires that the buffer is not in the ring, because the code would tie the ring into a knot.
- BufferCache.BlockCache.WriteData: a buffer's 1024 bytes are a value in the record that is replaced as a whole, not an array at a fixed address.
- HardDisk.DiskQueue.WaitFor: the drive answers after at most `patience` more turns, where `patience` is any number; a drive that never answers is not modelled.
- HardDisk.DiskQueue.AtaRead: with interrupts enabled it is called with the queue at rest, as get_block does; with a request already waiting an interrupt during the call can meet an empty ring, where the code reads a stale or NULL buffer. Those runs are covered by `DiskRuns`. The ring has room, because a request in its last slot would make it look empty.
- HardDisk.DiskQueue.DoRequest: with interrupts enabled, at most one request and no command in flight, for the same reason.
- DiskRuns.EveryRunIsFifo: an interrupt on an empty ring ends the run. `DiskRuns.EmptyRingInterruptIff` says when one can come and `DiskModel.InterruptOnEmptyRing` what it does with a used slot; with a slot never used the handler follows NULL.
- Readings.ZoneShown: a sufficient condition; the exact one is `IndexLoss.ZoneRightIff`.
- Readings.SearchShown: a sufficient condition; a search reads many blocks, any number of which may be lost and still not change the answer.
- PathReadings.WalkShown: a sufficient condition, for the same reason.
- Allocator.MemoryManager.AllocObject: each object type is always used with one size, between 4 bytes and a page, as its callers do; `ArenaSafety.OtherSizeFitsIff` says what another size would get.
- Allocator.MemoryManager.FreeObject: the size is that of the object type, as its callers pass it.
- Inodes.InodeTable.GetInode: the hash table of resident inodes is a map from keys to nodes, not chains; the chains of the block cache, which are the same code, are modelled. Asking for a resident inode is excluded, because it is locked and the code would wait forever.
- Inodes.InodeTable.NewNode: allocating a node succeeds; the source does not check for NULL.
- PathWalk.NameToInode: no inode met is already resident, because it is locked and the code would wait forever; no block read is held by somebody else, because the code would share its buffer; every block number is below 2^27; a component longer than 30 bytes meets no entry equal to its first 30, because the answer would depend on memory behind the entry; and a directory of more than 0xFFFFFFE0 bytes holds a match, because the position would wrap around.
- Zones.GetZone: the straight-line code of the three indirect branches is one recursion over the index path; no index block is held by somebody else or numbered 2^27 or above.
- Bitmaps.InitMap: there is a free buffer for each block taken, because with none the code spins forever; and nobody holds one of the blocks, because the code would share its buffer.
- Bitmaps.AllocBit: the node map has a buffer for each of its blocks, which the source does not check against MAX_IMAP_NUM and MAX_ZMAP_NUM.
- Paging.Paging.KnlFork: enough free pages are left, because the code does not check for NULL; task records are objects, not words of the page taken for them, and the fixed segment registers of the new task are left out.
- Paging.Paging.OnPageFault: the page is present, as on a write to a read-only page; a NULL current task is left out, and so are user writes to page tables through the writable identity mapping.
- Boot.InitMemory: the end of a range that is not refused is at most 0xFFFFE000, above which the loop's guard never turns false, as `Allocator.InitLoopCanEndIff` has it for the same loop.
- Boot.SetupFirstTask: memory is zero at the start; segment registers and TLB loads are left out.
- Litmus.BufferedCanFail: store buffers are first-in first-out and a barrier drains them; other weak memory effects are not modelled.
- BinaryHeap.Heap.Pop: requires a non-empty heap, because Go panics on an empty one.
- Formatting.Vsprintf: the buffer is long enough and the arguments are those the format asks for; the source checks neither.
- Print.FillDigits: the two loops are one, with the base as a parameter; masking and shifting by four bits are remainder and quotient by 16.
- ata_write, and the sleep and wake-up notes in comments: nothing reaches them.
- Boot sectors, inline assembly, port input and output, timer, interrupt controller, descriptor tables: hardware effects.
- The partition table and the superblock: where a device's structures begin are parameters.
- knl_exec, real task switching, console, logging, shell commands, pipes and system calls.
- free_inode, which is empty, and heap.go's min, Len and Dump.
- The copies of memory.c, string.h and log.c elsewhere in the repository.
