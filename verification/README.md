# Verified model of the kernel's memory, storage and text code

This project models, in Dafny, the parts of the x64BareBones kernel and its tools that keep state
under hard invariants, and proves what their design promises. Everything is checked by
`dafny verify dfyconfig.toml`.

Code that changes things in place is a class or a method over arrays and linked nodes; the contract
of each such method ties its answer and its new state to functions of the old one, and the theorems
are about those functions and about whole runs of them.

| files | source | subject |
|---|---|---|
| ChunkLists, ChunkHeaps | `Kernel/system/MemoryManagement/kmem.c`, `pmem.c` | first-fit heaps with in-band headers |
| BuddyTrees, BuddyNodes | `Kernel/system/MemoryManagement/buddy.c` | the buddy tree, whose nodes are kernel-heap chunks |
| MemLib, ProcessHeaps | `Kernel/system/MemoryManagement/memlib.c`, `pmem.c` | blocks, addresses, isolation of process heaps |
| SharedTables, SharedRuns, SharedMemory | `Kernel/system/sharedMemory/shared.c` | named, counted shared blocks over both allocators |
| BmfsDirectory, BmfsGaps, BmfsCreate, BmfsFiles, BmfsRuns, Bmfs, BmfsSizes, BmfsInit | `Bootloader/BMFS/bmfs.c` | the file system as a map from names to bytes |
| Memcpy, ModulePacking | `Kernel/lib.c`, `Toolchain/ModulePacker/main.c`, `Kernel/moduleLoader.c` | the image writer and its reader |
| Numerals, Formats, Stdio | `Userland/CodeModule/lib/stdio.c` | printf and scanf as inverses |
| Timers, TaskTimer | `Kernel/system/timer.c` | the task table compacted while it is walked |
| Options, Words, Bytes, Streams | | an option type, machine words, little-endian bytes, the part of C streams that is used |

## Where the code departs from its intent

Each of these is modelled as the code has it, with a proof of exactly when it matters.

- The limit checks of `kmalloc` and `pmalloc` leave out the header: a payload may end up to 40 bytes
  past the limit (`MallocWithinLimitIff`). All runs of a process stay inside its block if and only if
  the block holds the first header and leaves room for one more behind the heap, unless the heap is
  too small for any chunk (`StaysInBlockIff`).
- `free_memblock` and `get_memblock` count from `MEM_START`, not from the pool. The block at index 0,
  and no other, overlaps the first kernel-heap headers (`BlockClearIff`).
- A zero-size request makes `_buddy_alloc` split until `kmalloc` has no room for a node, and the null
  pointer is then written through. The model proves that it does so exactly when the tree has a free
  leaf, and that it ends because the heap runs out. A request of any size crashes in this way exactly
  when the heap cannot serve the nodes it needs (`BuddyAlloc`, `NodesNeededIsGrowth`, `MallocsRunOut`).
- `current` of the shared table never shrinks. It is one more than the largest number of entries that
  were ever live at once, so after nine simultaneous blocks `shmget` refuses for good, even when all
  have been detached (`GetRefusedIff`, `RefusedForGood`).
- `free_memblock` is a system call and frees any block: the shared table survives it exactly when no
  entry has that block (`ReleaseKeepsIff`).
- `shmget` with overwrite on an existing name drops the old entry without freeing it (`Shmget`).
- BMFS `create` steps over deleted records as if they were files. It puts a file on top of another
  exactly when no run of blocks is free but a deleted record has room behind it (`CreateOutcome`,
  `CreateCanOverlap`). Without a terminator it counts no records at all (`CreateUnterminated`,
  `CreateCanCutOff`).
- On a disk of less than 4 MiB, which `format` accepts, there is no data block, and `create` takes
  0 - 1 for the last one: every new name is given blocks from 1 on, which do not exist. For all sizes
  and directories, the files survive a create exactly on a disk of at least 4 MiB and in a right
  place (`CreateOnSmallDisk`, `CreateOnAnyDisk`, `CreateAfterSmallFormat`).
- The comparator given to `qsort` puts each of two records behind the other exactly when both are
  deleted, and each before the other exactly when both are live and their starts differ by 2^31
  modulo 2^32 (`ComparatorAntisymmetricIff`, `ComparatorOrdersIff`); only a permutation in the order of
  the live records is relied on.
- The overflow checks of the disk size parser miss some overflows (`OverflowMissed`); for every size
  the model says exactly which (`ParseRightIff`).
- The comment of `memcpy` rules out overlap; the code is right exactly when the destination is not
  inside the source above its start, which is what `scroll` needs (`ForwardMovesIff`).
- `print_bin` writes past its 20-byte buffer for every number of 2^19 or more (`PrintBuffer`).
- `vsscanf` with a format that ends in a space skips both terminators and reads on (`ScanAfterPrint`).
- The tick routine divides by a 32-bit product, which is zero for `seconds` 0 and 2^31, and is not the
  period asked for above 238609294 seconds (`PeriodIff`, `TrapsIff`).

## Model

| member | source | states |
|---|---|---|
| ChunkLists.MallocKeepsInv | Kernel/system/MemoryManagement/kmem.c:13-53 | Every allocation keeps the list in address order with all payloads and in-band headers disjoint, no two neighbours free, and every payload ending at most a header past the limit. |
| ChunkLists.MallocLive | Kernel/system/MemoryManagement/kmem.c:26-52 | A successful allocation adds one region of the requested size at an address that was not live and leaves every other live region as it was. |
| ChunkLists.MallocTakesLowest | Kernel/system/MemoryManagement/kmem.c:18-32 | The free chunk that is reused is the one at the lowest address among those large enough; the list grows only when none is, and then right behind the last payload. |
| ChunkLists.MallocReuses | Kernel/system/MemoryManagement/kmem.c:18-32 | A request takes the first chunk that is large enough from its start on and leaves the sizes and places of all others alone. |
| ChunkLists.MallocGrows | Kernel/system/MemoryManagement/kmem.c:34-52 | With no such chunk one is added a header behind the last, or the request is refused, and every chunk stays as it was. |
| ChunkLists.MallocFailsIff | Kernel/system/MemoryManagement/kmem.c:21-36 | Allocation fails, leaving the list alone, exactly when no free chunk is large enough and the last end plus the size exceeds the limit. |
| ChunkLists.MallocWithinLimitIff | Kernel/system/MemoryManagement/kmem.c:34-43 | Payloads stay inside the limit exactly when a chunk is reused or the request does not come within one header of the limit. |
| ChunkLists.MallocUsesUp | Kernel/system/MemoryManagement/kmem.c:26-52 | Each success takes a free chunk, or adds one chunk above a top that was not past the limit. |
| ChunkLists.MallocsRunOut | Kernel/system/MemoryManagement/kmem.c:21-52 | Requests of any sizes cannot all succeed once there are more of them than free chunks plus room for further headers, so repeated allocation fails. |
| ChunkLists.OwnerOfStart | Kernel/system/MemoryManagement/kmem.c:72-75 | The absolute-distance search of a free stops at precisely the chunk whose payload begins at the pointer. |
| ChunkLists.FreeKeepsInv | Kernel/system/MemoryManagement/kmem.c:64-94 | Freeing any pointer, live or not, keeps the list invariant exactly when it is more than a header's length away from the base. |
| ChunkLists.FreeLive | Kernel/system/MemoryManagement/kmem.c:64-94 | Freeing a live pointer removes exactly that region from the map of live regions. |
| ChunkLists.FreeConserves | Kernel/system/MemoryManagement/kmem.c:77-93 | Merging conserves space: the free bytes grow by exactly the size of the freed region. |
| ChunkLists.Surroundings | Kernel/system/MemoryManagement/kmem.c:77-93 | Every live chunk stands between the free neighbours it has, if any, and the rest of the list. |
| ChunkLists.FreeMerges | Kernel/system/MemoryManagement/kmem.c:77-93 | A free puts one free chunk in the place of the freed one and its free neighbours, from the start of the lowest of them and with all their bytes, and changes no other chunk. |
| ChunkLists.FreedIsReused | Kernel/system/MemoryManagement/kmem.c:18-32 | A request for up to that many bytes that finds nothing lower is then answered from that start. |
| ChunkLists.FreeAnyPointer | Kernel/system/MemoryManagement/kmem.c:64-94 | A free of any other pointer frees the chunk whose start it comes within a size of first, or changes nothing when there is none or it is free. |
| ChunkLists.RunAgrees | Kernel/system/MemoryManagement/kmem.c:13-94 | Every run that frees only live pointers refines the abstract map from address to requested size and keeps the invariant. |
| ChunkLists.LiveDisjoint | Kernel/system/MemoryManagement/kmem.c:38-52 | Any two live regions are apart by at least the header of the upper one, above the base chunk and within a header of the limit. |
| ChunkHeaps.ChunkHeap.constructor | Kernel/system/MemoryManagement/kmem.c:96-114 | The initial list is the header chunk alone. |
| ChunkHeaps.ChunkHeap.Malloc | Kernel/system/MemoryManagement/kmem.c:13-53 | The walk over the linked list and the in-place update compute the specified allocation. |
| ChunkHeaps.ChunkHeap.Append | Kernel/system/MemoryManagement/kmem.c:38-50 | The new cell is linked behind the last one with its header between the payloads. |
| ChunkHeaps.ChunkHeap.Free | Kernel/system/MemoryManagement/kmem.c:64-94 | The walk and the two merges on the linked list compute the specified free. |
| ChunkHeaps.ChunkHeap.FreeCell | Kernel/system/MemoryManagement/kmem.c:77-93 | Unmarking and merging with the previous and the next cell, in that order, coalesces the list at that place. |
| ChunkHeaps.ChunkHeap.Absorb | Kernel/system/MemoryManagement/kmem.c:79-82 | The cell behind is unlinked and its size joins the cell before. |
| BuddyTrees.BlocksInside | Kernel/system/MemoryManagement/buddy.c:93-99 | Every allocated block lies inside its node; below a split it has at most half the size. |
| BuddyTrees.BlocksApart | Kernel/system/MemoryManagement/buddy.c:93-99 | Two different allocated blocks never overlap. |
| BuddyTrees.CoalescedIsCanonical | Kernel/system/MemoryManagement/buddy.c:133-140 | A tree without two free halves under one split is the tree built from its root and its set of blocks alone. |
| BuddyTrees.SameBlocksSameTree | Kernel/system/MemoryManagement/buddy.c:133-140 | Two such trees over one root with the same blocks are equal. |
| BuddyTrees.AllocEffect | Kernel/system/MemoryManagement/buddy.c:52-113 | A grant adds exactly one new block, at the returned index, at least as large as the request and less than twice it, and keeps all others. |
| BuddyTrees.AllocFailsClean | Kernel/system/MemoryManagement/buddy.c:69-77 | A refused request leaves the whole tree unchanged. |
| BuddyTrees.AllocTakesLeftmost | Kernel/system/MemoryManagement/buddy.c:60-67 | The answer is the leftmost free leaf that is large enough, or none. |
| BuddyTrees.AllocFailsIffNoRoom | Kernel/system/MemoryManagement/buddy.c:52-113 | A request is refused exactly when no block that halving can produce is both large enough and unoccupied. |
| BuddyTrees.NodesNeededIsGrowth | Kernel/system/MemoryManagement/buddy.c:82-106 | A request takes exactly as many new nodes as the tree gains by it. |
| BuddyTrees.FreeEffect | Kernel/system/MemoryManagement/buddy.c:122-160 | A free removes the blocks at the index and no others, keeps the tree coalesced, and reports success exactly when it removed one. |
| BuddyTrees.FreesCommute | Kernel/system/MemoryManagement/buddy.c:122-160 | Two frees in either order give the same tree. |
| BuddyTrees.FreeUndoesAlloc | Kernel/system/MemoryManagement/buddy.c:52-160 | Freeing what was just granted restores the exact tree. |
| BuddyTrees.FreeAllGivesRoot | Kernel/system/MemoryManagement/buddy.c:122-160 | Freeing every block in any order leaves the single free root. |
| BuddyTrees.RunKeeps | Kernel/system/MemoryManagement/buddy.c:52-160 | Every run keeps the tree well formed and coalesced. |
| BuddyTrees.HistoryIndependent | Kernel/system/MemoryManagement/buddy.c:22-160 | Two runs from the initial pool that leave the same blocks allocated leave the same tree. |
| BuddyNodes.NodePair | Kernel/system/MemoryManagement/buddy.c:86-87 | The two node allocations of a split give two fresh chunks and disturb nothing else in the heap. |
| BuddyNodes.SplitLeaf | Kernel/system/MemoryManagement/buddy.c:82-103 | A split succeeds exactly when the kernel heap serves two nodes in a row, and then adds two free half-size nodes owned by the tree. |
| BuddyNodes.AttachHalves | Kernel/system/MemoryManagement/buddy.c:89-103 | The two halves stand at the indices and sizes that halving gives. |
| BuddyNodes.BuddyAlloc | Kernel/system/MemoryManagement/buddy.c:52-113 | On mutable nodes, for any size and heap: terminates, and its answer, tree, node addresses and heap are the specified ones. It crashes exactly when the heap cannot serve the nodes that the grant needs; a request for no bytes crashes exactly when the tree has a free leaf, and is refused otherwise. |
| BuddyNodes.AllocSplit | Kernel/system/MemoryManagement/buddy.c:80-108 | The same for a free node that has to be split. |
| BuddyNodes.AllocLeft | Kernel/system/MemoryManagement/buddy.c:62-65 | The recursive call gives the specified answer for the left half and changes that half only. |
| BuddyNodes.AllocRight | Kernel/system/MemoryManagement/buddy.c:66 | The recursive call gives the specified answer for the right half and changes that half only. |
| BuddyNodes.FreePair | Kernel/system/MemoryManagement/buddy.c:135-136 | The two frees of a merge remove exactly the two halves' nodes from the heap. |
| BuddyNodes.BuddyFree | Kernel/system/MemoryManagement/buddy.c:122-160 | On mutable nodes: computes the specified tree, node addresses, heap and answer, and the heap holds the remaining nodes and everything else it held. |
| BuddyNodes.FreeInChild | Kernel/system/MemoryManagement/buddy.c:130-131 | The recursive call on one half changes that half only, and the heap as specified for it. |
| BuddyNodes.MergeHalves | Kernel/system/MemoryManagement/buddy.c:134-140 | A merge gives both halves' nodes back once and leaves one free node. |
| BuddyNodes.BuddyKill | Kernel/system/MemoryManagement/buddy.c:203-213 | Every node of the tree goes back to the heap exactly once, halves before their parent, and nothing else does. |
| BuddyNodes.AddrsCount | Kernel/system/MemoryManagement/buddy.c:86-87 | The heap chunks owned by the tree are as many as its nodes. |
| MemLib.PagedSizeIff | Kernel/system/MemoryManagement/memlib.c:52-62 | The rounded size is the least multiple of the page size that holds the request, exactly for sizes up to 2^64 - 4096; beyond that it is 0. |
| MemLib.AllocSound | Kernel/system/MemoryManagement/memlib.c:16-24 | Granted indices lie in the pool and all blocks stay at least a page large. |
| MemLib.GrantRoundTrip | Kernel/system/MemoryManagement/memlib.c:16-32 | The granted block has at least the rounded size and less than twice it, lies in the pool apart from all earlier ones, and freeing it restores the tree. |
| MemLib.AnswerIsNewBlock | Kernel/system/MemoryManagement/memlib.c:16-24 | The address answered is the start of memory plus the index of the one block that is new in the tree, of the rounded size at least; null is answered exactly when the blocks stay as they were, for a size above 0 exactly when no aligned unoccupied block is large enough. |
| MemLib.BlockClearIff | Kernel/system/MemoryManagement/memlib.c:23 | A block's bytes are clear of every heap header and of every chunk but the pool exactly when its index is not 0. |
| MemLib.FirstChunks | Kernel/system/MemoryManagement/buddy.c:25-36 | Pool and root node are the first two chunks of the heap; when each of them fails. |
| MemLib.Memory.Kmalloc | Kernel/system/MemoryManagement/kmem.c:13-53 | Answers and changes the heap as specified on behalf of another client, who gains one region; the buddy tree and its nodes are left alone. |
| MemLib.Memory.Kfree | Kernel/system/MemoryManagement/kmem.c:64-94 | Another client's free changes the heap as specified, loses one region and leaves the buddy tree and its nodes alone. |
| MemLib.Memory.GetMemblock | Kernel/system/MemoryManagement/memlib.c:16-24 | For every size, tree and heap the answer is the address of the one new block, null exactly when no block is granted, or a crash exactly when specified; tree, node addresses and heap are the specified ones and other clients keep their chunks. |
| MemLib.Memory.FreeMemblock | Kernel/system/MemoryManagement/memlib.c:26-32 | The block at the address is freed and 0 returned, or -1 and nothing changes for an address below memory or without a block; tree, node addresses and heap are the specified ones. |
| MemLib.InitMem | Kernel/system/MemoryManagement/memlib.c:10-14 | Exactly when it fails; otherwise the heap holds the pool and one free root node, which is a usable pool exactly for a non-zero size. |
| ProcessHeaps.RunReachesPastLimit | Kernel/system/MemoryManagement/pmem.c:34-43 | One request that uses up the limit check ends a full header past it. |
| ProcessHeaps.StaysInBlockIff | Kernel/system/MemoryManagement/pmem.c:13-114 | All runs of a process stay inside its block exactly when the block holds the first header and the heap size leaves room for one more, or is smaller than a header. |
| ProcessHeaps.ServeLocal | Kernel/system/MemoryManagement/pmem.c:13-94 | A call changes the caller's list alone, as the list functions do with the end of its heap as the limit. |
| ProcessHeaps.ServeAllAgrees | Kernel/system/MemoryManagement/pmem.c:13-94 | Under any interleaving every process heap keeps its invariant and its own map of live regions. |
| ProcessHeaps.Isolation | Kernel/system/MemoryManagement/pmem.c:34-52 | After any interleaving no byte of a chunk or header of one process belongs to another, when their heaps are distinct live buddy blocks with room for the extra header. |
| SharedTables.SearchFindsRoom | Kernel/system/sharedMemory/shared.c:36-52 | The "no space" exit of shmget cannot be reached. |
| SharedTables.SearchLastNull | Kernel/system/sharedMemory/shared.c:33-40 | A search that does not find the name ends at the last null slot. |
| SharedTables.GetId | Kernel/system/sharedMemory/shared.c:33-77 | The id answered is that of the name afterwards: the one it had, or that of the last null slot below the bound; no other slot changes, and this one only when an entry is built. |
| SharedTables.AtById | Kernel/system/sharedMemory/shared.c:85-92 | shmat of the id of a name counts up the entry of that name, answers its block and changes no other slot. |
| SharedTables.AtNothingIff | Kernel/system/sharedMemory/shared.c:82-88 | It changes nothing and answers 0 exactly when no live entry has the id. |
| SharedTables.GetKeepsShape | Kernel/system/sharedMemory/shared.c:74-75 | After a new entry a null slot lies below the table's bound, which is one more than the peak number of live entries. |
| SharedTables.DetachOne | Kernel/system/sharedMemory/shared.c:99-121 | With distinct blocks the loop of a detach meets exactly one entry, and empties its slot exactly on the last count. |
| SharedTables.DetachEach | Kernel/system/sharedMemory/shared.c:95-124 | For any address and table: entries there are counted down, wrapping below 0, up to the first on its last count, which is emptied; every other slot stays. |
| SharedRuns.StartIsNew | Kernel/system/sharedMemory/shared.c:69 | What get_memblock grants is no block that anyone has, and everyone keeps theirs. |
| SharedRuns.StartIsGrant | Kernel/system/sharedMemory/shared.c:69 | The start of a new entry is the address of the block that is new in the tree, or 0 exactly when none is. |
| SharedRuns.FreeOwn | Kernel/system/sharedMemory/shared.c:109 | Freeing a block that an entry has finds it and leaves every other block where it is. |
| SharedRuns.GetKeepsInv | Kernel/system/sharedMemory/shared.c:23-78 | A new or overwriting entry, or a refusal, keeps names and blocks of live entries distinct and every count equal to attaches minus detaches. |
| SharedRuns.AtKeepsInv | Kernel/system/sharedMemory/shared.c:80-93 | An attach counts up exactly the entry it answers for. |
| SharedRuns.DetachKeepsInv | Kernel/system/sharedMemory/shared.c:95-124 | A block goes back to the buddy exactly on its last detach, is found there, and the invariant is kept. |
| SharedRuns.GrantKeepsInv | Kernel/system/syscalls.c:189 | A block that anyone else is granted takes none from an entry. |
| SharedRuns.ReleaseKeepsIff | Kernel/system/syscalls.c:194 | A free of any address by anyone else keeps the table sound exactly when no entry has that block. |
| SharedRuns.RunKeepsInv | Kernel/system/sharedMemory/shared.c:23-137 | Over every run of answered calls, with and without overwrite, room for chunks or blocks, and with others taking and freeing blocks of their own in between: names and blocks stay distinct, counts are attaches minus detaches, every entry has its block in the tree, and the peak never falls. |
| SharedRuns.NameKeepsSlot | Kernel/system/sharedMemory/shared.c:23-124 | An entry keeps its slot in every step after which its name still has one. |
| SharedRuns.AttachById | Kernel/system/sharedMemory/shared.c:23-93 | Whatever happens after shmget has answered an id for a name, as long as the name keeps an entry shmat of the id counts up that entry, answers its block and changes no other. |
| SharedRuns.GetRefusedIff | Kernel/system/sharedMemory/shared.c:25-26 | After any run the table turns every name away exactly when nine entries were live at once at some time. |
| SharedRuns.RefusedForGood | Kernel/system/sharedMemory/shared.c:25-26 | From then on it does so whatever is detached. |
| SharedMemory.ShmgetOutcome | Kernel/system/sharedMemory/shared.c:23-78 | -1 exactly without a name, with a full table, or when an entry is to be built and there is no chunk for it; no answer exactly when the chunk for the name or the nodes of the block fail; otherwise the table and id of the specified get. |
| SharedMemory.ShmgetFinds | Kernel/system/sharedMemory/shared.c:43-47 | A name that the table has keeps its entry and gives its id when nothing is overwritten. |
| SharedMemory.ShmgetIsStep | Kernel/system/sharedMemory/shared.c:23-78 | Every call that answers is a legal step of the runs above, with the same table and tree. |
| SharedMemory.OwnsInstall | Kernel/system/sharedMemory/shared.c:58-71 | A new entry owns two fresh chunks and a fresh block, apart from all other entries'. |
| SharedMemory.OwnsRemove | Kernel/system/sharedMemory/shared.c:107-117 | A removed entry's chunks and block leave every other entry its own. |
| SharedMemory.ReleaseBlock | Kernel/system/sharedMemory/shared.c:109-115 | An entry's block is found by the buddy and freed, and everyone else keeps theirs. |
| SharedMemory.Shared.constructor | Kernel/system/sharedMemory/shared.c:13-21 | The table starts empty. |
| SharedMemory.Shared.Shmat | Kernel/system/sharedMemory/shared.c:80-93 | Computes the specified attach in place. |
| SharedMemory.Shared.Shmdetach | Kernel/system/sharedMemory/shared.c:95-124 | Computes the specified detach in place, and on the last one exactly the entry's two chunks and its block go back. |
| SharedMemory.Shared.CountDown | Kernel/system/sharedMemory/shared.c:99-107 | The loop counts down the entries at the address until one reaches its last count. |
| SharedMemory.Shared.Release | Kernel/system/sharedMemory/shared.c:109-117 | The entry's chunks and block are given back and its slot is emptied. |
| SharedMemory.Shared.GiveBack | Kernel/system/sharedMemory/shared.c:109-113 | Exactly the block, the name and the struct are freed. |
| SharedMemory.Shared.FindSlot | Kernel/system/sharedMemory/shared.c:33-49 | The loop finds the entry of that name, else the last null slot. |
| SharedMemory.Shared.Fill | Kernel/system/sharedMemory/shared.c:58-71 | Builds the entry, refuses without room for the struct, or gives no answer, each exactly when specified over tree and heap. |
| SharedMemory.Shared.FillNamed | Kernel/system/sharedMemory/shared.c:63-71 | Once the struct has its chunk: builds the entry, or gives no answer, each exactly when specified. |
| SharedMemory.Shared.FillSlot | Kernel/system/sharedMemory/shared.c:63-71 | Once both chunks exist, the slot holds the new entry with count 0 and the specified block, unless get_memblock crashes. |
| SharedMemory.Shared.Shmget | Kernel/system/sharedMemory/shared.c:23-78 | Answer, table, tree and heap are the specified ones for every table, name, size, heap and overwrite flag. |
| SharedMemory.Shared.Place | Kernel/system/sharedMemory/shared.c:54-77 | The same once the slot is known. |
| SharedMemory.Shared.PlaceNew | Kernel/system/sharedMemory/shared.c:58-77 | Answer, table, tree and heap of a get that builds an entry, at the position of its name or at a null one. |
| SharedMemory.Shared.Grow | Kernel/system/sharedMemory/shared.c:74-75 | The bound grows by one exactly when a new name left no null slot. |
| BmfsDirectory.Find | Bootloader/BMFS/bmfs.c:203-229 | A lookup answers a live record with that name, or there is none. |
| BmfsDirectory.StrCpyRead | Bootloader/BMFS/bmfs.c:696 | The name copied into a record reads back as the name given, and the bytes behind its terminator stay. |
| BmfsDirectory.RecordLayout | Bootloader/BMFS/bmfs.c:12-19 | Name, starting block, reserved blocks, size and the unused field lie at 0, 32, 40, 48 and 56 of a record. |
| BmfsDirectory.RecordAt | Bootloader/BMFS/bmfs.c:209 | Record i lies at 64 * i of the directory. |
| BmfsDirectory.DirRoundTrip | Bootloader/BMFS/bmfs.c:105-106 | Reading back a flushed directory gives the directory. |
| BmfsGaps.ComparatorAntisymmetricIff | Bootloader/BMFS/bmfs.c:595-606 | The comparator puts each of two records behind the other exactly when both are deleted, each before the other exactly when both are live and their starts differ by 2^31 modulo 2^32, and agrees with itself on every other pair. |
| BmfsGaps.ComparatorOrdersIff | Bootloader/BMFS/bmfs.c:604-605 | It orders two live records by their starting blocks exactly when the low word of the distance is on the right side of 2^31, so always when they start less than 2^31 blocks apart. |
| BmfsGaps.SortQsorted | Bootloader/BMFS/bmfs.c:659 | Sorting by the comparator gives a permutation with the live records ascending and the deleted ones last. |
| BmfsGaps.ScanSpec | Bootloader/BMFS/bmfs.c:661-683 | On any such permutation the scan finds the lowest run of free blocks if there is one, and otherwise answers exactly when a deleted record has room behind it. |
| BmfsGaps.ScanLive | Bootloader/BMFS/bmfs.c:667-683 | While live records are passed, no earlier place fits. |
| BmfsGaps.ScanDeleted | Bootloader/BMFS/bmfs.c:670-682 | Behind the live records the scan tries the end of each deleted one. |
| BmfsCreate.PlaceEnd | Bootloader/BMFS/bmfs.c:691-704 | The terminator moves exactly when its slot was used, and no other record changes. |
| BmfsCreate.PlaceGoodIff | Bootloader/BMFS/bmfs.c:691-704 | A new record keeps all files good exactly when its blocks are a free run. |
| BmfsCreate.CreateAnswers | Bootloader/BMFS/bmfs.c:616-655 | For any directory: a name that a live record has is refused first, then a directory in which every slot is live. |
| BmfsCreate.CreateOutcome | Bootloader/BMFS/bmfs.c:608-717 | With a terminator, on a disk with a data block: create succeeds exactly when a run is free or a deleted record has room behind it, takes the lowest free run when there is one, and harms no file exactly when one is free or no deleted record has such room. |
| BmfsCreate.UnterminatedPlace | Bootloader/BMFS/bmfs.c:621-655 | Without a terminator the record goes to block 1, and exactly when that does no harm. |
| BmfsCreate.CreateUnterminated | Bootloader/BMFS/bmfs.c:608-717 | Without a terminator: when create refuses, when it succeeds, and exactly when all files survive it. |
| BmfsCreate.CreateOnSmallDisk | Bootloader/BMFS/bmfs.c:619-686 | On every disk of less than 4 MiB a good directory is empty, and create gives every new name a record of blocks from 1 on, which the disk does not have. |
| BmfsCreate.CreateGoodIff | Bootloader/BMFS/bmfs.c:608-717 | With or without a terminator: when create succeeds and exactly when all files survive it. |
| BmfsCreate.CreateOnAnyDisk | Bootloader/BMFS/bmfs.c:608-717 | For every disk size and directory: create succeeds exactly on a disk of less than 4 MiB or when there is a place; all files survive it exactly on a disk of at least 4 MiB and when a place that it takes is a right one. |
| BmfsCreate.CreatedIsFoundIff | Bootloader/BMFS/bmfs.c:691-704 | The new file is found under its name exactly when the name is not empty and does not begin with a mark byte. |
| BmfsCreate.CreateCanOverlap | Bootloader/BMFS/bmfs.c:681-682 | A good directory of two records on which create reserves a block of a live file. |
| BmfsCreate.CreateCanCutOff | Bootloader/BMFS/bmfs.c:698-704 | A good directory of 64 records, 63 of them live, in which after one create only the new file is live. |
| BmfsFiles.CreateFiles | Bootloader/BMFS/bmfs.c:691-708 | A safe placement adds one empty file with its capacity to the map from names to bytes. |
| BmfsFiles.DeleteFiles | Bootloader/BMFS/bmfs.c:800-819 | Marking a record deleted removes exactly its file from the map. |
| BmfsFiles.WriteFiles | Bootloader/BMFS/bmfs.c:782-791 | Writing a file's blocks and size changes exactly that file's bytes and nothing in front of the first data block. |
| BmfsFiles.OtherContent | Bootloader/BMFS/bmfs.c:782-787 | A write inside one file's blocks leaves every other file's bytes alone. |
| BmfsFiles.FlushFiles | Bootloader/BMFS/bmfs.c:707-708 | Writing the directory touches no file's bytes. |
| BmfsRuns.FormatRefines | Bootloader/BMFS/bmfs.c:258-268 | A formatted disk holds no files. |
| BmfsRuns.FormatBytes | Bootloader/BMFS/bmfs.c:258-268 | A format writes the tag at 1024, clears the rest of that block and the directory, and leaves every other byte alone. |
| BmfsRuns.CreateRefines | Bootloader/BMFS/bmfs.c:608-717 | A safe create, with or without a terminator, adds the empty file exactly when the name is new and a slot and a run of blocks are free. |
| BmfsRuns.CreateReserves | Bootloader/BMFS/bmfs.c:613-618 | On any disk a created record reserves the least number of blocks of two MiB that is not below the size asked for, except that 2^64 - 1 wraps and reserves none. |
| BmfsRuns.CreateCapacity | Bootloader/BMFS/bmfs.c:613-618 | The capacity of a created file is the least multiple of 2 MiB not below the number of MiB asked for. |
| BmfsRuns.CreateAfterSmallFormat | Bootloader/BMFS/bmfs.c:111-113 | A disk of less than 4 MiB formats as a good empty one, and any create on it then leaves a directory that is not good. |
| BmfsRuns.WriteRefines | Bootloader/BMFS/bmfs.c:752-797 | A write succeeds exactly when the file exists and can hold the bytes, and replaces exactly its bytes. |
| BmfsRuns.CreateThenWrite | Bootloader/BMFS/bmfs.c:608-797 | Any bytes up to the size asked for can be written to a file just created, and read back. |
| BmfsRuns.DeleteRefines | Bootloader/BMFS/bmfs.c:800-819 | A delete removes exactly that name. |
| BmfsRuns.ReadRefines | Bootloader/BMFS/bmfs.c:720-749 | A read gives the bytes that the map holds under the name, or nothing. |
| BmfsRuns.ByteRead | Bootloader/BMFS/bmfs.c:741-744 | Byte k that a read copies is the one at that distance behind the starting block, or the end-of-file character behind the end of the disk. |
| BmfsRuns.ReopenSame | Bootloader/BMFS/bmfs.c:94-107 | The directory on the disk equals the one in memory after every command. |
| BmfsRuns.RunAgrees | Bootloader/BMFS/bmfs.c:608-819 | Over every run of creates that lose no file, writes and deletes the disk refines the map, through full directories too, and a read of any name gives exactly the last bytes written under it. |
| Bmfs.Tool.constructor | Bootloader/BMFS/bmfs.c:101-107 | Opening a disk loads its size in MiB, modulo 2^32, and its directory. |
| Bmfs.Tool.FindFile | Bootloader/BMFS/bmfs.c:203-229 | The loop over the 64 slots computes the lookup. |
| Bmfs.Tool.CountUsed | Bootloader/BMFS/bmfs.c:633-649 | The loop counts the records before the terminator, none without one, and finds the first reusable slot. |
| Bmfs.Tool.FindGap | Bootloader/BMFS/bmfs.c:661-683 | The loop computes the specified scan. |
| Bmfs.Tool.AddRecord | Bootloader/BMFS/bmfs.c:691-708 | The record, the moved terminator and the flush, in place. |
| Bmfs.Tool.FlushDirectory | Bootloader/BMFS/bmfs.c:707-708 | The directory's image replaces the one on the disk. |
| Bmfs.Tool.TryCreate | Bootloader/BMFS/bmfs.c:608-717 | The whole command in place, for any directory and a disk of any size. |
| Bmfs.Tool.CreateFile | Bootloader/BMFS/bmfs.c:608-717 | A safe create on an open disk adds the file exactly when it can be added, and keeps the disk good. |
| Bmfs.Tool.TryDelete | Bootloader/BMFS/bmfs.c:800-819 | The whole command in place, for any directory. |
| Bmfs.Tool.Delete | Bootloader/BMFS/bmfs.c:800-819 | Removes exactly that file from an open good disk, and reports whether it was there. |
| Bmfs.Tool.TryRead | Bootloader/BMFS/bmfs.c:720-749 | The whole command, for any directory, with offsets in 64 bits and whether or not the local file opens. |
| Bmfs.Tool.Read | Bootloader/BMFS/bmfs.c:720-749 | Gives the file's bytes on an open good disk and changes nothing. |
| Bmfs.Tool.CopyOut | Bootloader/BMFS/bmfs.c:740-744 | The byte loop copies that many bytes from the position, and the end-of-file character behind the end of the disk. |
| Bmfs.Tool.TryWrite | Bootloader/BMFS/bmfs.c:752-797 | The whole command in place, for any directory, with sizes and offsets in 64 bits, with each exit and when it is taken. |
| Bmfs.Tool.Write | Bootloader/BMFS/bmfs.c:752-797 | On an open good disk, replaces exactly the file's bytes, with each reason for refusing and when it applies. |
| Bmfs.Tool.CopyIn | Bootloader/BMFS/bmfs.c:783-787 | The byte loop overwrites the disk from the position with the local file. |
| BmfsSizes.AddDigitRightIff | Bootloader/BMFS/bmfs.c:303-319 | One digit step gives the right number or the right refusal exactly when the product does not wrap to more than before. |
| BmfsSizes.ScaleUnitRightIff | Bootloader/BMFS/bmfs.c:365-376 | The same for one unit step. |
| BmfsSizes.ParseIsMeaning | Bootloader/BMFS/bmfs.c:299-377 | Every size below 2^64 parses to what it means, and nothing malformed is accepted but the empty string. |
| BmfsSizes.SizeInBytes | Bootloader/BMFS/bmfs.c:326-346 | Digits with K, M, G, T or P behind them, in either case, mean so many times 2^10, 2^20, 2^30, 2^40 or 2^50; any other letter means nothing. |
| BmfsSizes.ParseReasons | Bootloader/BMFS/bmfs.c:321-359 | Which refusal an argument gets that means nothing, and that the empty one is taken for 0. |
| BmfsSizes.ParseRightIff | Bootloader/BMFS/bmfs.c:299-377 | Every well-formed size is parsed modulo 2^64 unless a check fires at one of its digit or unit steps; it is parsed right exactly when it fits in 64 bits or some check fires. |
| BmfsSizes.OverflowMissed | Bootloader/BMFS/bmfs.c:365-376 | A size above 2^64 that is taken for a smaller one. |
| BmfsSizes.ParseSize | Bootloader/BMFS/bmfs.c:299-359 | The character loop and its exits compute the specified parse. |
| BmfsSizes.ScaleUp | Bootloader/BMFS/bmfs.c:361-377 | The unit loop, which goes on after an overflow, computes the specified scaling. |
| BmfsInit.LayoutGood | Bootloader/BMFS/bmfs.c:446-558 | The image that is written is a good disk without files, whatever the boot code; the base of every run. |
| BmfsInit.LayoutBytes | Bootloader/BMFS/bmfs.c:446-558 | The boot record is the first 512 bytes, the tag stands at 1024, boot loader and kernel from 8192 on, and every other byte is 0. |
| BmfsInit.Format | Bootloader/BMFS/bmfs.c:258-268 | Clears the directory in memory and on the disk and writes the tag. |
| BmfsInit.FillZeros | Bootloader/BMFS/bmfs.c:446-470 | The buffered loop writes exactly that many zeros. |
| BmfsInit.CopyFile | Bootloader/BMFS/bmfs.c:509-529 | The buffered loop overwrites the disk from the position with the whole file. |
| BmfsInit.WriteBoot | Bootloader/BMFS/bmfs.c:504-558 | The kernel follows the boot loader behind the directory. |
| BmfsInit.Initialize | Bootloader/BMFS/bmfs.c:271-591 | Which arguments are refused and why, when the disk file cannot be had, and the exact image that is written. |
| BmfsInit.InitializeThenOpen | Bootloader/BMFS/bmfs.c:271-591 | A disk that initialize completes opens as a good disk without files; it completes unless one of the stated refusals applies. |
| Memcpy.ForwardMovesIff | Kernel/lib.c:37-58 | The forward copy equals a copy through a buffer, for all contents, exactly when the destination is not inside the source above its start. |
| Memcpy.ForwardRepeats | Kernel/lib.c:51-55 | With the destination inside the source above its start, the copy repeats the bytes in front of the destination. |
| Memcpy.WordStep | Kernel/lib.c:43-47 | Copying an aligned word equals copying its four bytes in turn, overlapping or not. |
| Memcpy.Copy | Kernel/lib.c:23-59 | Both paths give the forward copy for every length, alignment and overlap. |
| Memcpy.CopyWords | Kernel/lib.c:43-47 | The word loop gives the byte-wise forward copy. |
| Memcpy.CopyBytes | Kernel/lib.c:51-55 | The byte loop gives the forward copy. |
| ModulePacking.WordRoundTrip | Kernel/moduleLoader.c:38-43 | A 32-bit number written lowest byte first reads back. |
| ModulePacking.WordIsBytes | Kernel/moduleLoader.c:38-43 | A 32-bit number is its four bytes, lowest first. |
| ModulePacking.WriteFile | Toolchain/ModulePacker/main.c:109-119 | The buffered loop appends the whole source file. |
| ModulePacking.AppendModule | Toolchain/ModulePacker/main.c:74-78 | A module is appended behind its size, modulo 2^32. |
| ModulePacking.BuildImage | Toolchain/ModulePacker/main.c:52-85 | The image is the kernel, the number of modules, and each module behind its size; none when the target cannot be created. |
| ModulePacking.PackedIsPayload | Toolchain/ModulePacker/main.c:61-82 | Just behind the kernel's bytes of the image lies a payload that describes exactly the packed modules. |
| ModulePacking.PackedRecord | Toolchain/ModulePacker/main.c:74-78 | Each module's record stands in memory at the offset the reader will reach. |
| ModulePacking.LoadModule | Kernel/moduleLoader.c:19-36 | One record is copied forwards to any target, and the pointer moves behind it. |
| ModulePacking.LoadOneMoves | Kernel/moduleLoader.c:32 | The module arrives as it was unless its target lies inside it above its start. |
| ModulePacking.LoadModules | Kernel/moduleLoader.c:9-17 | For any targets, overlapping or not, memory is the one that loading each module in turn from what the ones before have left gives, as long as it stays inside memory. |
| ModulePacking.NextSizeIsWritten | Kernel/moduleLoader.c:15-16 | A module that lands on the next record gives that one its size. |
| ModulePacking.LoadedWhenApart | Kernel/moduleLoader.c:9-17 | With targets apart from each other and from the payload, loading stays inside memory, every module's exact bytes are at its target and all other memory is unchanged. |
| ModulePacking.LoadedNext | Kernel/moduleLoader.c:15-16 | Loading one more module keeps the earlier ones in place. |
| ModulePacking.PayloadKept | Kernel/moduleLoader.c:15-16 | Loading never disturbs the payload that is still to be read. |
| ModulePacking.PackAndLoad | Kernel/moduleLoader.c:9-43 | Packing any kernel and modules, placing the image and loading it to targets apart from each other and from the image is the identity on the modules. |
| Numerals.DigitsDenote | Userland/CodeModule/lib/stdio.c:159-170 | In every base from 2 to 16 the digits denote the number and begin with 0 only for 0. |
| Numerals.DigitsFitIff | Userland/CodeModule/lib/stdio.c:159-173 | k digits are enough exactly for the numbers below the base to the k. |
| Numerals.PrintBuffer | Userland/CodeModule/lib/stdio.c:122-157 | The 20-byte buffer is large enough in base 8, 10 and 16, and in base 2 exactly below 2^19. |
| Numerals.NumToBase | Userland/CodeModule/lib/stdio.c:159-188 | The buffer holds the digits, most significant first, and a terminator. |
| Numerals.WriteDigits | Userland/CodeModule/lib/stdio.c:164-170 | The division loop writes the digits backwards. |
| Numerals.ReverseInPlace | Userland/CodeModule/lib/stdio.c:175-185 | The two pointers reverse the digits in place and keep the terminator. |
| Numerals.ReadDigitsBack | Userland/CodeModule/lib/stdio.c:401-407 | The accumulating loop recovers any number up to 2^31, whose last step wraps. |
| Numerals.ReadsPrefix | Userland/CodeModule/lib/stdio.c:401-407 | The loop takes digits as long as the number before each, modulo 2^32, lies between 0 and INT_MAX - 1, and gives the number they denote modulo 2^32. |
| Numerals.DecimalRoundTrip | Userland/CodeModule/lib/stdio.c:390-415 | read_dec inverts print_dec on every 32-bit int, including the minimum, whatever follows but a digit. |
| Formats.PrintedItems | Userland/CodeModule/lib/stdio.c:66-90 | Printing a format prints its items one behind the other. |
| Formats.PrintedPlain | Userland/CodeModule/lib/stdio.c:70-87 | Text without conversions is printed as it is, percent signs included. |
| Formats.PrintArgMeans | Userland/CodeModule/lib/stdio.c:92-157 | What each conversion prints: strings as they are, a character by its code modulo 256, numbers in base 16, 8 and 2 modulo 2^32 and in base 10 with a sign, without a 0 in front. |
| Formats.ReadBack | Userland/CodeModule/lib/stdio.c:353-374 | Reading one conversion takes exactly the text that was printed for it and recovers the argument. |
| Formats.ScanItems | Userland/CodeModule/lib/stdio.c:301-351 | From any point in the middle, the scan recovers all remaining arguments, or reads past the end exactly when the format ends in a space. |
| Formats.ScanStores | Userland/CodeModule/lib/stdio.c:301-351 | On any input and format the values stored are of the kinds the format asks for, in its order, and the answer is their number, one less when the last could not be read, or -1. |
| Formats.ScanAfterPrint | Userland/CodeModule/lib/stdio.c:66-415 | For every list of delimited items, scanning what was printed with the same format recovers every argument and their number, unless the format ends in a space: then it reads past both strings. |
| Stdio.PrintNumber | Userland/CodeModule/lib/stdio.c:122-157 | The digits of the number in the base, for every buffer that holds them and a terminator. |
| Stdio.PrintDec | Userland/CodeModule/lib/stdio.c:132-143 | Sign and magnitude of any 32-bit int. |
| Stdio.Vfprintf | Userland/CodeModule/lib/stdio.c:66-90 | The loop prints what the format specifies and counts it. |
| Stdio.ReadStr | Userland/CodeModule/lib/stdio.c:376-386 | The loop takes the characters up to a space, the end or the next format character. |
| Stdio.ReadNumber | Userland/CodeModule/lib/stdio.c:390-415 | The loop computes the specified number and length. |
| Stdio.Vsscanf | Userland/CodeModule/lib/stdio.c:301-351 | The pointer-advancing loop computes the specified scan on every input, including when it leaves one of the strings. |
| Stdio.PrintThenScan | Userland/CodeModule/lib/stdio.c:66-415 | The two loops run one after the other give the arguments back. |
| Timers.PeriodIff | Kernel/system/timer.c:29 | The period is zero exactly for two values of `seconds`, and the one asked for exactly up to 238609294. |
| Timers.CallsInOrder | Kernel/system/timer.c:27-36 | The calls of a tick are as many as there are due tasks, and each due task's handler stands behind those of the due tasks in front of it. |
| Timers.SurvivorsInOrder | Kernel/system/timer.c:27-36 | The tasks left are as many as repeat or are not due, and each stands behind those in front of it. |
| Timers.TrapsIff | Kernel/system/timer.c:29 | A tick divides by zero exactly when some task's period is zero. |
| Timers.NextKeepsInv | Kernel/system/timer.c:23-86 | No step registers a handler twice or fills the last slot. |
| Timers.AddRegisters | Kernel/system/timer.c:43-58 | A handler joins behind the tasks there are, with exactly what was given, when it is not registered and fewer than four are; else nothing changes. |
| Timers.RemoveTakesOne | Kernel/system/timer.c:78-87 | A removal takes out the handler's task and keeps the others in order. |
| Timers.RunKeepsRunning | Kernel/system/timer.c:23-86 | No run that registers only tasks of non-zero period traps. |
| Timers.MultiplesAre | Kernel/system/timer.c:29 | The ticks at which a period comes up after t0 are its multiples in order, and (t0 + n) / p - t0 / p of them in n ticks. |
| Timers.RepeatingTimes | Kernel/system/timer.c:23-86 | Over every run without its removal a repeating task is called at exactly the multiples of its period. |
| Timers.RepeatingFromAdd | Kernel/system/timer.c:23-86 | A repeating task is called, from the tick at which it is added until it is removed, at exactly the multiples of 18 times the seconds asked for. |
| Timers.FirstIs | Kernel/system/timer.c:29 | The first multiple after t0, and when it has not come yet. |
| Timers.OneShotTimes | Kernel/system/timer.c:23-86 | Over every run without its removal a one-shot task is called exactly once, at the first multiple of its period, and is registered until then. |
| Timers.OneShotFromAdd | Kernel/system/timer.c:23-86 | One that does not repeat is called once, at the first such multiple after the tick at which it is added. |
| Timers.SilentFromRemove | Kernel/system/timer.c:23-87 | A removed handler is not called until it is added again. |
| TaskTimer.Timer.RemoveAt | Kernel/system/timer.c:60-66 | The later tasks move down by one. |
| TaskTimer.Timer.Contains | Kernel/system/timer.c:68-76 | Answers whether the handler is registered. |
| TaskTimer.Timer.AddTask | Kernel/system/timer.c:43-58 | Appends exactly the task given when its handler is not registered and fewer than four are, and else changes nothing. |
| TaskTimer.Timer.RemoveTask | Kernel/system/timer.c:78-87 | Removes the handler's task and keeps the others in order. |
| TaskTimer.Timer.Visit | Kernel/system/timer.c:28-35 | One turn of the loop: the index steps back after a removal, so that no task is skipped. |
| TaskTimer.Timer.TimerHandler | Kernel/system/timer.c:23-38 | The loop that removes while it iterates calls and keeps exactly the specified tasks, also when it traps half way. |

## Left out

- Addresses and sizes of the heaps, the buddy tree and the shared table are unbounded integers; 64-bit wrap-around is modelled only in page rounding, shared counts, BMFS block and byte arithmetic, the size parser and the tick counter.
- Kernel memory contents: the heaps and the tree are objects, and that headers and payloads do not overlap is proved about their addresses.
- `_buddy_size` and the tree printer: `_buddy_size` tests an unsigned value for being negative and so never searches a left subtree; nothing in the kernel builds on it.
- kcalloc, pcalloc, memset, memsetw and memcmp: they would only add easy members.
- BuddyNodes.BuddyAlloc: says exactly when a request crashes, and nothing about the state after it, because the source then writes through a null pointer; MemLib.Memory.GetMemblock and SharedMemory.Shared.Shmget pass that on.
- SharedMemory.Shared.Shmdetach: gives the kernel heap after it by its live chunks; its list is what `FreeMemblock` and `Kfree` specify. `Shmget` does not repeat the node addresses that `GetMemblock` gives.
- The entries of the shared table are records in the array; the struct behind each pointer is represented by the chunk it owns. Comparing C strings is not modelled there.
- SharedRuns.RunKeepsInv: is about calls that answer; after a call that wrote through a null pointer there is no run.
- BMFS `list`, the argument handling of `main` and its check of the disk tag; keyboard input.
- BmfsDirectory.StrCpyRead: names of 32 bytes or more overflow the record in `create`; the model takes names that fit.
- BmfsGaps.SortQsorted: `qsort` is represented by what it may be relied on for, a permutation in order, and by a verified insertion sort in the class, for starting blocks below 2^31.
- BMFS loop counters are `int`: files of 2^31 bytes or more are not modelled as the loops would treat them.
- BmfsInit.Initialize: leaves out failing writes; progress messages are not modelled.
- ModulePacking.LoadModules: leaves out loads that run past the end of memory.
- ModulePacking.PackAndLoad: asks that the targets be apart from each other and from the image; elsewhere the source reads sizes and modules that it has overwritten, as `LoadModules` specifies.
- The module loader's counter is an `int` and its console messages are not modelled; option parsing and the access check of the packer are not part of this model.
- Formats.ScanAfterPrint: covers `%d`, `%c` and `%s` with literals; a `%c` argument that is a space or NUL, and strings with delimiters in them, cannot be read back.
- `print_bin` is given a buffer of 33 bytes in Stdio.PrintOption; what its 20-byte buffer can hold is stated by Numerals.PrintBuffer.
- The line input of `fgets` and the 64-byte buffer of `vfscanf`; error messages on the error stream.
- `wait` resets the tick counter, and handlers that register or remove tasks from inside a tick are not modelled.
- Timers.RepeatingTimes and Timers.OneShotTimes are about runs in which the 64-bit tick counter does not wrap.
- Scheduling, boot code in assembly, ports, video, keyboard, clock, shell commands and system-call dispatch.
