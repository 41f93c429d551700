# StackOS kernel: models and proofs

StackOS is a 32-bit hobby kernel in C. This project models the parts of it whose correctness
is not visible from any one function, and proves what they promise in every reachable state:

- **StackFS** (`StackFs*.dfy`): superblock, inode table, block bitmap, direct pointers and three
  dirty flags over a disk of sectors. Files refine byte sequences, directories refine maps, blocks
  have one owner, and mounting again rebuilds the state.
- **Kernel heap** (`Heap.dfy`, `HeapMemory.dfy`): the first-fit allocator, as a list of blocks and
  as the header words in memory.
- **Frames and page tables** (`Pmm.dfy`, `Paging.dfy`, `PagingFrames.dfy`, `PagingMachine.dfy`): two-level
  tables in physical memory refine partial maps, never alias, and give every frame back.
- **Scheduler** (`Scheduler.dfy`, `SchedulerRuns.dfy`, `SchedulerQueue.dfy`): safety, waiting times
  and sleepers over all runs; the linked run queue.
- **Paths** (`Vfs.dfy`): resolution over mounts and who frees which node.
- **Users** (`Users.dfy`, `UsersFile.dfy`): the passwd printer and parser undo each other; what stays in the
  file when it is written again.
- **Network and drawing** (`Checksum.dfy`, `Dhcp.dfy`, `Raster.dfy`, `Circles.dfy`): the Internet checksum, the DHCP
  option list and handshake, the integer line and circle.

Each subsystem is written twice. A value-level module defines what every operation does to the whole
state, and the theorems are about those functions. A class or method (`Volume`, `KernelHeap`,
`FrameAllocator`, `Machine`, `Kernel`, `FileSystems`, `UserTable`, `DhcpClient`, `Line`, ...) runs
the loops and updates of the C code on arrays and fields, and its postcondition equates the new
state with the function of the old one. `Bytes.dfy` holds bits, little-endian integers and C strings.

`dafny verify dfyconfig.toml` checks everything.

## Where the code does not do what it seems to

The models follow the code; each point below has a proof, with the exact condition where there is one.

- Block 0 is handed out first, but 0 in a pointer means "no block", so on a fresh volume the first
  created name is lost, and block 0 is never given back (`FirstMakeIsLost`, `MakeVisibleIff`). The
  invariant counts block 0 as taken, and `FormatRun` shows that no file is ever written before that.
- `bfs_write` marks the inode table dirty only when the file grows; a hole filled before the end is
  not on the disk afterwards (`WriteInSyncIff`, and `TwoWritesLoseTable` for two writes that do it).
- `bfs_read` cuts a request at the end of the file by a 32-bit sum; when that wraps, the rest of the
  last block is returned behind the file's bytes (`ReadIsSliceIff`).
- `create` and `mkdir` do not look for duplicates, so a name may be there twice and survive one
  `unlink` (`UnlinkHidesNameIff`; `DuplicateStays` makes one).
- The superblock struct is documented to fit one 512-byte sector but has 516 bytes (32 bytes of
  numbers, 32 of label, 452 of padding). Only the first 512 reach the disk; `write_sector` and
  `read_sector` move that many (`SuperRoundTrip`).
- `split_block` computes `leftover` unsigned. On a fit that leaves fewer than 20 bytes it wraps, the
  "not worth splitting" test misses it, and the block list is destroyed (`SplitTestsAgreeIff`,
  `KMalloc`; `FourthCallCorrupts` does it in four calls). `Heap` follows the evident intent,
  `HeapMemory` the code; `KMalloc` says when they agree, and `Serve` that over a run memory stays a heap
  exactly until such a fit.
- `wake_tick` has 32 bits, so a sleep that ends beyond their range is over at once (`SleepWraps`).
- A process that sleeps for less than a tick while nothing else is ready wakes itself inside
  `schedule` and stays current in the READY state (`SleepKeepsIff`). It is lost if its next call that
  schedules is a yield or a timer tick, and only then (`SelfWokenLosesIff`).
- The exact-mount shortcut of `vfs_open` answers for a mount whose parent directory does not exist
  (`ShortcutAgreesIff`, `ShortcutAlone`).
- Saved users come back only if no name or password holds a colon or newline, no name is empty and no
  privilege exceeds 9, which `user_add` does not ensure (`LoadOfSaveIff`, and `ColonIsLost` for a user named a:b).
- `users_save` writes over the file from its start and nothing cuts off what an older, longer text leaves
  behind: a deleted user is back after the next boot (`LoadAfterSaveIff`, `DeletedUserReturns`).
- The UDP checksum is computed over the addresses in network order, but the IP header carries them
  with their bytes reversed, so a receiver's check fails unless the two errors cancel (`StoredUdpOnWireIff`).
- After a NAK `dhcp_got_ack` stays set, and the client can end up with no address or with one that
  nobody acknowledged (`AcknowledgedIff`).
- `fb_line` doubles its error term in a C `int`, which overflows on some lines longer than a third of
  the range, not on all (`LineFitsIff`, `LongLineOverflows`, `LongLines`); `fb_circle` overflows for radii
  above 2^29 + 23170 (`CircleFitsIff`).

## Model

| member | source | states |
|---|---|---|
| StackFsFiles.WriteOverwrites | kernel/fs/stackfs.c:204-232 | bfs_write, at any 32-bit offset and over any holes: the file becomes the old bytes with buf's first `done` bytes written over them, a gap behind the old end reading as zeros; done is what the loop can reach with the free blocks; the file gains just the blocks touched, no other file changes, block ownership holds |
| StackFsFiles.WriteLoopPatches | kernel/fs/stackfs.c:210-227 | the write loop, from any position: every byte of the file is the stored one inside the range reached and the old one outside, and it stops at the first missing block that the free blocks do not cover |
| StackFsFiles.WriteKeepsWhole | kernel/fs/stackfs.c:204-232 | a write that starts inside a hole-free file or at its end leaves no hole and stores all of buf, cut only by 48 KiB and the free blocks |
| StackFsFiles.ReadLoopReads | kernel/fs/stackfs.c:190-200 | the read loop returns the bytes from its position up to the first missing block |
| StackFsFiles.ReadIs | kernel/fs/stackfs.c:182-202 | bfs_read of any file returns its bytes from the offset to the first hole, the end of the file or the size asked for, as long as the 32-bit sum of offset and size does not wrap |
| StackFsFiles.ReadIsSlice | kernel/fs/stackfs.c:182-202 | of a hole-free file bfs_read returns exactly the requested slice and its length, when the sum does not wrap |
| StackFsFiles.ReadIsSliceIff | kernel/fs/stackfs.c:188-189 | for all 32-bit arguments the slice is returned exactly when the offset is behind the end, or the sum does not wrap, or the file ends with a full block |
| StackFsFiles.WrappedReadOverruns | kernel/fs/stackfs.c:188-189 | the failing input: a 5-byte file read at offset 1 for 2^32 - 1 bytes yields 4095 |
| StackFsFiles.WriteThenRead | kernel/fs/stackfs.c:182-232 | reading back what was just written, at any offset and whatever holes the file has, gives it, and every other file reads as before |
| StackFsFiles.SameFileSameBytes | kernel/fs/stackfs.c:182-202 | a file whose inode and blocks are left alone keeps its bytes, its holes and every read |
| StackFsInvariant.GrantBlock | kernel/fs/stackfs.c:96-104 | allocating a block and hanging it into an empty pointer keeps ownership (taken bits are block 0 and the pointers of live inodes, each named once) and costs one free block |
| StackFsInvariant.AllocFails | kernel/fs/stackfs.c:96-104 | bitmap_alloc fails exactly when free_blocks is 0 |
| StackFsInvariant.ReleaseKeeps | kernel/fs/stackfs.c:339-343 | releasing an inode frees exactly the blocks it pointed to and keeps ownership and both free counts |
| StackFsDirs.ScanIsComplete | kernel/fs/stackfs.c:267-285 | used directory blocks form a prefix, so the scan that stops at the first missing block finds the first entry of the name in the whole directory, or there is none |
| StackFsDirs.FinddirFinds | kernel/fs/stackfs.c:261-287 | bfs_finddir returns the inode the first entry of that name targets |
| StackFsDirs.FinddirMisses | kernel/fs/stackfs.c:261-287 | bfs_finddir returns nothing when no entry has the name |
| StackFsDirs.SameLookups | kernel/fs/stackfs.c:261-287 | two states whose directory has the same entries answer every lookup in it alike |
| StackFsDirOps.AddEntryEnters | kernel/fs/stackfs.c:289-311 | dir_add_entry fills one empty slot with the truncated name exactly when the directory has an empty slot or a free block for one; otherwise it changes nothing |
| StackFsVolume.WriteRefines | kernel/fs/stackfs.c:204-232 | bfs_write on a live file of a volume that satisfies the whole invariant, at any offset: the file is overwritten, nothing in its inode but size and blocks changes, all directories and other files are as before, the invariant holds again, and volumes without holes stay so when the write starts inside the file |
| StackFsVolume.MakeRefines | kernel/fs/stackfs.c:313-328 | bfs_create and bfs_mkdir: with no free inode nothing happens; otherwise a fresh empty file or directory appears, its name is entered exactly when the parent has room, nothing else changes, the invariant holds |
| StackFsVolume.MakeCounts | kernel/fs/stackfs.c:289-328 | create and mkdir cost one inode, and a block exactly when the directory has room but no empty slot |
| StackFsUnlink.UnlinkRefines | kernel/fs/stackfs.c:330-351 | bfs_unlink: without such an entry it fails and changes nothing; otherwise the first such entry goes, its name with it, its inode is zeroed and its blocks are given back, every other entry and file stays, the invariant holds |
| StackFsUnlink.EntriesInRange | kernel/fs/stackfs.c:339-342 | the entry numbers with which bfs_unlink indexes the inode table unchecked are inside it |
| StackFsRuns.MakeInsertsName | kernel/fs/stackfs.c:261-328 | creating a fresh name makes bfs_finddir return the new inode for it exactly when the directory has room, and changes no other lookup in any directory |
| StackFsRuns.UnlinkRemovesName | kernel/fs/stackfs.c:261-351 | unlinking a name that is there once makes its lookup fail and changes no other lookup in any surviving directory |
| StackFsRuns.UnlinkHidesNameIff | kernel/fs/stackfs.c:313-351 | create does not look for duplicates: after unlink the name is gone exactly when it was there once |
| StackFsRuns.DuplicateStays | kernel/fs/stackfs.c:313-351 | the input: creating a name that is there already, in any state with room, makes a second entry, and one unlink leaves the name to be found |
| StackFsRuns.StepKeeps | kernel/fs/stackfs.c:204-351 | create, mkdir, write at any offset and unlink keep ownership, counts, directory structure and clean file ends, and the disk in step with memory exactly when the operation is no write that fills a hole without growing the file |
| StackFsRuns.FormattedStep | kernel/fs/stackfs.c:150-351 | on the formatted volume there is no file to write, unlink finds nothing, and the first create or mkdir leads to the invariant |
| StackFsRuns.RunKeeps | kernel/fs/stackfs.c:150-351 | over every run from a formatted volume or a state of the invariant: the state is the untouched start or satisfies the invariant; disk and memory agree after every operation exactly when no write fills a hole without growing its file; when all writes start inside their files none does, and no file has a hole |
| StackFsRuns.RunRemounts | kernel/fs/stackfs.c:47-374 | mounting the disk after such a run rebuilds superblock fields, inode table and bitmap |
| StackFsRuns.FormatRun | kernel/fs/stackfs.c:96-232 | over every run from format on the volume is untouched or satisfies the invariant, and then whatever is written to a file, at any offset, is read back |
| StackFsRuns.FormatIsGood | kernel/fs/stackfs.c:150-169 | a formatted volume is a start for such runs, in step with its disk |
| StackFsRuns.FormatIsEmpty | kernel/fs/stackfs.c:150-169 | a formatted volume has the root directory and no other inode in use, no block taken, correct counts, and its metadata is on the disk |
| StackFsRuns.FormatFields | kernel/fs/stackfs.c:150-169 | the superblock counts every whole block behind the metadata, all free, and 127 free inodes; the label is the first 31 bytes of the argument; the root is an empty directory / with mode 0755; data blocks are untouched |
| StackFsRuns.FirstMakeIsLost | kernel/fs/stackfs.c:96-104 | on a fresh volume the first create reports success but its entry goes to block 0, whose number means `no block`, so no lookup finds it; from then on the invariant holds |
| StackFsRuns.BootReachesInv | kernel/fs/stackfs.c:150-169 | format followed by one mkdir reaches the invariant, and no name can be looked up yet |
| StackFsRuns.MakeVisibleIff | kernel/fs/stackfs.c:289-328 | a created name can be looked up exactly when block 0 had been handed out before and the directory has room |
| StackFsRuns.CreatedNode | kernel/fs/stackfs.c:274-282 | the node bfs_finddir makes for a name just created carries that name and inode and describes an empty file or directory |
| StackFsNodes.CreateMakesFile | kernel/fs/stackfs.c:313-320 | bfs_create with a free inode turns it into an empty file with mode 0644 and the stored name, and no other inode changes its kind |
| StackFsNodes.MkdirMakesDirectory | kernel/fs/stackfs.c:322-328 | bfs_mkdir with a free inode turns it into a directory with mode 0755 in which every lookup fails, and no other inode changes its kind |
| StackFsNodes.NodeDescribes | kernel/fs/stackfs.c:261-287 | bfs_finddir gives no node exactly when no entry has the name or the heap is full; otherwise the node has the inode of the first such entry, its kind, the length of its contents and its name |
| StackFsNodes.WrongKinds | kernel/fs/stackfs.c:182-274 | read and write return -1, and write changes nothing, exactly for inode numbers that name no live file; a lookup in an inode that is no live directory finds nothing |
| StackFsNodes.WriteShows | kernel/fs/stackfs.c:204-287 | after bfs_write a lookup gives the same node with the length of the new contents as its size |
| StackFsNodes.RunNames | kernel/fs/stackfs.c:313-351 | over every run every inode is free, a file or a directory and bears the name under which it is entered |
| StackFsNodes.LookupsAreNamed | kernel/fs/stackfs.c:261-351 | after any run from format on a node found bears the name looked up, and is a live file or directory as it says |
| StackFsNodes.FileComesBack | kernel/fs/stackfs.c:150-328 | format, a first mkdir, create, write to the node found, read: all of buf comes back but for what twelve blocks or the disk less two cannot hold, and the next lookup shows that length |
| StackFsNodes.MountedAgain | kernel/fs/stackfs.c:359-374 | a volume mounted again from its disk, over any memory, satisfies the invariant and answers every lookup and every read as before |
| StackFsRemount.SyncSaves | kernel/fs/stackfs.c:58-93 | stackfs_sync clears all dirty flags and puts on the disk every part that was marked dirty |
| StackFsRemount.RemountIsIdentity | kernel/fs/stackfs.c:47-93 | stackfs_mount, whatever the memory held, rebuilds the state of a synchronised volume (all but four padding bytes) |
| StackFsRemount.MountAcceptsIff | kernel/fs/stackfs.c:359-364 | stackfs_mount accepts a disk exactly when its first four bytes are the magic number, lowest byte first; otherwise only the superblock in memory changes |
| StackFsRemount.TableChangesIff | kernel/fs/stackfs.c:211-227 | the write loop changes the inode table exactly when a block is free and one of the blocks the write touches is missing |
| StackFsRemount.WriteInSyncIff | kernel/fs/stackfs.c:217-230 | after bfs_write disk and memory agree exactly when, in the state before, what the write reaches ends behind the file, or no block is free, or none that it touches is missing |
| StackFsRemount.FilledHoleIsLost | kernel/fs/stackfs.c:217-230 | the failing family: one byte written into a hole before the end of a file leaves the disk with an older inode table |
| StackFsRemount.TwoWritesLoseTable | kernel/fs/stackfs.c:204-232 | it is reached from any empty file by one byte at offset 4096, then one byte at offset 0 |
| StackFsRemount.WriteKeepsSync | kernel/fs/stackfs.c:204-232 | writes up to the end of a hole-free file leave the disk in step with memory |
| StackFsRemount.MakeKeepsSync | kernel/fs/stackfs.c:313-328 | so do create and mkdir |
| StackFsRemount.UnlinkKeepsSync | kernel/fs/stackfs.c:330-351 | so does unlink |
| StackFsLayout.TableRoundTrip | kernel/fs/stackfs.h:75-84 | an inode table survives its byte image |
| StackFsLayout.SuperBytes | kernel/fs/stackfs.h:55-66 | each field of the superblock lies little-endian at its offset in the packed struct |
| StackFsLayout.InodeBytes | kernel/fs/stackfs.h:75-84 | so does each field of an inode, in 120 bytes |
| StackFsLayout.TableBytes | kernel/fs/stackfs.c:58-70 | inode i starts at byte 120 i of the table |
| StackFs.BitmapByte | kernel/fs/stackfs.c:96-110 | block b is bit b mod 8, counted from the lowest, of byte b / 8 of the bitmap |
| StackFsLayout.SuperRoundTrip | kernel/fs/stackfs.h:55-66 | the superblock survives its sector but for the last four of the struct's 516 bytes, which keep what memory held |
| StackFsLayout.JoinCut | kernel/fs/stackfs.c:47-70 | cutting an image into 512-byte sectors loses nothing |
| StackFsDisk.PutBlockFrame | kernel/fs/stackfs.c:113-129 | writing a data block changes that block only: distinct blocks have disjoint sectors, none of them below sector 63 |
| StackFsDisk.Volume.ReadBlock | kernel/fs/stackfs.c:116-122 | the sector loop reads the block |
| StackFsDisk.Volume.WriteBlock | kernel/fs/stackfs.c:123-129 | the sector loop writes the block and no other sector |
| StackFsDisk.Volume.BitmapAlloc | kernel/fs/stackfs.c:96-104 | the in-place scan equals BitmapAlloc on the state: lowest clear bit, one less free block, dirty flags |
| StackFsDisk.Volume.BitmapFree | kernel/fs/stackfs.c:105-110 | the in-place update equals BitmapFree on the state |
| StackFsDisk.Volume.AllocInode | kernel/fs/stackfs.c:132-139 | the scan from inode 1 equals AllocInode on the state |
| StackFsDisk.Volume.Read | kernel/fs/stackfs.c:182-202 | the block loop, its cut on the 32-bit sum included, returns what Read gives on the state, which it leaves as it was |
| StackFsDisk.Volume.Write | kernel/fs/stackfs.c:204-232 | write loop, size update and sync together take the state to Write of the old state, with its return value |
| StackFsDisk.Volume.AddEntry | kernel/fs/stackfs.c:289-311 | the two loops take the state to AddEntry of the old state, with its return code |
| StackFsDisk.Volume.Make | kernel/fs/stackfs.c:313-328 | the new state and return code are Make of the old state |
| StackFsDisk.Volume.Create | kernel/fs/stackfs.c:313-320 | the method for create: type file, mode 0644 |
| StackFsDisk.Volume.Mkdir | kernel/fs/stackfs.c:322-328 | the method for mkdir: type directory, mode 0755 |
| StackFsDisk.Volume.Finddir | kernel/fs/stackfs.c:261-287 | the scan and the node filled in (name, inode, size, kind; none when nothing is found or the heap is full) are FindNode of the state, which stays as it was |
| StackFsDisk.Volume.Unlink | kernel/fs/stackfs.c:330-351 | the new state and return code are Unlink of the old state |
| StackFsDisk.Volume.Release | kernel/fs/stackfs.c:339-343 | the pointer loop and the clearing take the state to Release of the old state |
| StackFsDisk.Volume.Format | kernel/fs/stackfs.c:150-169 | the new state is Format of the old one |
| StackFsDisk.Volume.Mount | kernel/fs/stackfs.c:359-367 | the new state and the outcome are Mount of the old state, magic check included |
| StackFsDisk.Volume.LoadInodes | kernel/fs/stackfs.c:47-57 | the sector loop loads the table from sectors 1 to 30 |
| StackFsDisk.Volume.LoadBitmap | kernel/fs/stackfs.c:78-81 | the sector loop loads the bitmap from sectors 31 to 62 |
| StackFsDisk.Volume.SaveInodes | kernel/fs/stackfs.c:58-70 | the sector loop writes the table and no other sector, and clears the flag |
| StackFsDisk.Volume.SaveBitmap | kernel/fs/stackfs.c:82-86 | the sector loop writes the bitmap and no other sector, and clears the flag |
| StackFsDisk.Volume.Sync | kernel/fs/stackfs.c:89-93 | the new state is Sync of the old one |
| Heap.Align8Covers | kernel/mm/heap.c:10 | rounding up to 8 gives the next multiple, except that it wraps to 0 for the last seven sizes below 2^32 |
| Heap.SplitTestsAgreeIff | kernel/mm/heap.c:33-35 | the split test as coded, on an unsigned difference, agrees with the evident intent exactly when the fit leaves at least a header's 20 bytes |
| Heap.ExactFitSplits | kernel/mm/heap.c:33-35 | the concrete case: a 64-byte block that serves a 64-byte request is split |
| Heap.ExactFitArises | kernel/mm/heap.c:33-35 | such a fit arises: after heap_init, two requests for 64 bytes and a free of the first, the next request for 64 bytes meets it |
| Heap.AllocKeeps | kernel/mm/heap.c:32-47 | allocating in a fitting block leaves blocks that tile the region with no two free neighbours |
| Heap.ReleaseKeeps | kernel/mm/heap.c:50-63 | freeing and merging leaves blocks that tile the region with no two free neighbours |
| Heap.AllocAddsOne | kernel/mm/heap.c:65-80 | kmalloc adds exactly one live allocation, at the block found and at least as big as asked |
| Heap.AllocWaste | kernel/mm/heap.c:33-47 | when the fit exceeds the rounded request by more than 48 bytes the block is cut to the request and the rest, more than 28 bytes, is a free block; otherwise the whole block is handed out |
| Heap.ReleaseRemovesOne | kernel/mm/heap.c:92-99 | kfree takes away exactly the allocation it is given |
| Heap.AllocThenRelease | kernel/mm/heap.c:32-99 | kfree of what kmalloc just returned restores the block layout |
| Heap.NothingLive | kernel/mm/heap.c:22-29 | a heap without live allocations is the single free block heap_init made |
| Heap.RunKeeps | kernel/mm/heap.c:22-99 | over every run of allocations and frees of live blocks, splits as intended, the list stays well formed, and when nothing is live it is the initial block again, in whatever order the frees came |
| HeapMemory.AllocRepresents | kernel/mm/heap.c:32-47 | the words a proper split writes represent the split list, with next and prev inverse of each other, and no surviving payload changes |
| HeapMemory.NearExactCorrupts | kernel/mm/heap.c:33-46 | on an exact or nearly exact fit the words written represent no heap at all |
| HeapMemory.AbsorbRepresents | kernel/mm/heap.c:50-63 | merging two neighbours in memory represents the merged list and touches no live payload |
| HeapMemory.KernelHeap.constructor | kernel/mm/heap.c:22-29 | heap_init leaves one free block over the region |
| HeapMemory.KernelHeap.SplitBlock | kernel/mm/heap.c:32-47 | the in-place split writes exactly the words of SplitWords, leftover computed modulo 2^32 |
| HeapMemory.KernelHeap.KMalloc | kernel/mm/heap.c:65-80 | kmalloc returns 0 exactly for size 0 or when no free block fits, otherwise the payload of the first that fits; memory still is a heap exactly when that fit leaves room for a header, and then it is the list Alloc gives, payloads untouched |
| HeapMemory.KernelHeap.MergeFree | kernel/mm/heap.c:50-63 | the forward loop and the backward merge take the list to what MergeNext and MergePrev give |
| HeapMemory.KernelHeap.KFree | kernel/mm/heap.c:92-99 | kfree ignores 0 and every pointer with a wrong magic or a set free word, among them all of free blocks; otherwise it takes the list to Release of it and keeps every other payload; from then on the pointer is ignored, though its block may be merged away |
| HeapMemory.KernelHeap.FreeTwice | kernel/mm/heap.c:95-98 | freeing any live block twice in a row leaves memory as freeing it once does |
| HeapMemory.KernelHeap.Store | kernel/mm/heap.c:75 | what an owner writes into its payload leaves the heap a heap |
| HeapMemory.KernelHeap.Serve | kernel/mm/heap.c:65-99 | over every run of kmalloc, kfree of live blocks and stores by the owners, up to the first nearly exact first fit: memory is a heap at the end exactly when no request met one; then the blocks are those of the list run, one free block when nothing is live, and every allocation that lived through it holds what was last stored in it |
| HeapMemory.FourthCallCorrupts | kernel/mm/heap.c:33-80 | such a run: after heap_init, two requests for 64 bytes, a free of the first and another request for 64 bytes |
| Pmm.AllocKeeps | kernel/mm/pmm.c:65-72 | pmm_alloc returns the lowest free frame, never below 1 MiB, below the kernel's end or past RAM; it fails exactly when all are used; used_frames stays the number of set bits below total_frames |
| Pmm.FramesAreUsable | kernel/mm/pmm.c:40-71 | a frame handed out after pmm_init lies in RAM, above the first MiB and wholly behind the kernel |
| Pmm.FirstFrameIff | kernel/mm/pmm.c:49 | the first frame is the kernel end rounded up exactly when that stays below 2^32; otherwise it is frame 0 |
| Pmm.FreeKeeps | kernel/mm/pmm.c:74-80 | pmm_free of a frame that may be handed out makes exactly that frame free and keeps the count |
| Pmm.FreeKeepsIff | kernel/mm/pmm.c:74-80 | of any frame at all it clears just that bit, and the invariant survives exactly when the frame is not reserved |
| Pmm.AllocThenFree | kernel/mm/pmm.c:65-80 | an allocation freed at once restores bitmap and count |
| Pmm.SameBits | kernel/mm/pmm.c:11-13 | bitmap and count are determined by which frames are in use |
| Pmm.FrameAllocator.constructor | kernel/mm/pmm.c:40-63 | pmm_init reserves exactly the frames below 1 MiB, below the kernel's end (its 32-bit sum) and past RAM, and counts the used ones |
| Pmm.FrameAllocator.FirstFreeFrame | kernel/mm/pmm.c:28-38 | the two-level search finds the lowest clear bit of the whole bitmap, or reports none |
| Pmm.FrameAllocator.Allocate | kernel/mm/pmm.c:65-72 | the in-place update is Alloc of the old state |
| Pmm.FrameAllocator.Release | kernel/mm/pmm.c:74-80 | the in-place update is Free of the old state |
| Pmm.FrameAllocator.FreeFrames | kernel/mm/pmm.c:82-84 | the number of clear bits below total_frames, 0 exactly when pmm_alloc fails |
| Paging.MapChangesOnePage | kernel/mm/paging.c:116-130 | paging_map_page makes the page translate to the frame (into which flag bits from 12 up are or-ed) and leaves every other page's entry as it was, in the user half every entry of every other directory; it does nothing exactly when a table is missing and no frame is free; tables stay unaliased |
| Paging.MapGrantsAccess | kernel/mm/paging.c:116-131 | bit by bit the entry written is (phys & ~0xFFF) | (flags | PRESENT); a table made for it is a free frame behind a present, writable directory entry with the user bit of flags; no other directory entry changes |
| Paging.UnmapRemovesOnePage | kernel/mm/paging.c:132-139 | paging_unmap_page zeroes that page's entry and changes no other entry and no frame |
| Paging.CreateCopiesKernelHalf | kernel/mm/paging.c:93-101 | a new directory maps nothing in the user half and in the kernel half what the kernel's directory maps; all others keep their pages; refused exactly when no frame is free |
| Paging.SamePage | kernel/mm/paging.c:118-119 | two addresses have the same directory and table index exactly when they lie in one page |
| Paging.BootMaps | kernel/mm/paging.c:39-72 | after paging_init the first 8 MiB translate to themselves and at 0xC0000000, writable by the kernel alone, and nothing else is mapped |
| Paging.BootIsSafe | kernel/mm/paging.c:39-72 | paging_init's tables are unaliased and never handed out by the frame allocator |
| Paging.RunIsolates | kernel/mm/paging.c:86-148 | over any run of create, map, unmap and foreign allocations from a safe state no table is ever aliased, and a directory that nobody maps into, when nobody maps in the shared kernel half either, keeps every translation |
| PagingFrames.FreeLeavesFrees | kernel/mm/paging.c:107-110 | the inner loop of paging_destroy_directory frees exactly the frames the first n entries of the table map |
| PagingFrames.FreeTablesFrees | kernel/mm/paging.c:105-112 | the outer loop frees exactly the first n tables and what they map |
| PagingFrames.DestroyFreesOwned | kernel/mm/paging.c:103-114 | paging_destroy_directory frees the directory, its user tables and the frames they map, and nothing else |
| PagingFrames.MapFreshKeeps | kernel/mm/paging.c:116-130 | mapping a newly allocated frame succeeds exactly when a frame is free for it and one more for a missing table; otherwise, the frame given back, nothing at all changed |
| PagingFrames.StepKeeps | kernel/mm/paging.c:86-148 | creating, filling, emptying and destroying address spaces keeps the account: every used frame was used at the start or has exactly one role, known from the page tables |
| PagingFrames.AllFramesReturn | kernel/mm/paging.c:93-130 | however address spaces are created, filled, emptied and destroyed, once all are gone bitmap and used_frames are what they were |
| PagingFrames.NoSharedFrames | kernel/mm/paging.c:93-148 | in any such run no frame is mapped twice in the user halves, in one directory or in two |
| PagingFrames.UnnamedKeepsTranslations | kernel/mm/paging.c:86-148 | from any reachable state on, a directory that no operation names keeps every translation of its user half while others are created, filled, emptied and destroyed and their frames are used again |
| PagingMachine.Machine.constructor | kernel/mm/paging.c:39-72 | pmm_init and paging_init in place produce the boot memory |
| PagingMachine.Machine.NewTable | kernel/mm/paging.c:86-91 | alloc_table in place is AllocTable of the old state |
| PagingMachine.Machine.Map | kernel/mm/paging.c:116-130 | the in-place writes are MapPage of the old state |
| PagingMachine.Machine.Unmap | kernel/mm/paging.c:132-139 | the in-place write is UnmapPage of the old state |
| PagingMachine.Machine.Translate | kernel/mm/paging.c:141-148 | the walk returns VirtToPhys of the state: the frame's address plus the offset, 0 when either entry is absent |
| PagingMachine.Machine.Create | kernel/mm/paging.c:93-101 | the clearing and copying loops are CreateDirectory of the old state |
| PagingMachine.Machine.DestroySpace | kernel/mm/paging.c:103-114 | the two loops are Destroy of the old state; NULL and the kernel's directory are ignored |
| Scheduler.InitInv | kernel/proc/process.c:66-95 | proc_init establishes the invariant |
| Scheduler.FirstDispatch | kernel/proc/process.c:66-167 | after proc_init the first process made is PID 1 and runs at the first yield, and idle does not join the queue |
| SchedulerRuns.StepKeeps | kernel/proc/process.c:98-217 | every call keeps it: the run queue holds each ready process once and never the current one, exactly the current process runs, used slots have distinct PIDs |
| SchedulerRuns.Run | kernel/proc/process.c:98-217 | so does every run |
| SchedulerRuns.SleepKeepsIff | kernel/proc/process.c:138-152 | proc_sleep keeps the invariant exactly when the caller does not wake itself to the head of an empty queue |
| SchedulerRuns.ShortSleepAlone | kernel/proc/process.c:185-189 | sleeping for less than 10 ms while nothing else is ready does that |
| SchedulerRuns.SelfWokenLosesIff | kernel/proc/process.c:135-199 | a caller that woke itself is lost (READY, unqueued, not running) by the next call that schedules exactly when that is a yield or a timer tick; by blocking, sleeping or exiting it is accounted for again |
| SchedulerRuns.SelfWokenStays | kernel/proc/process.c:98-183 | calls that do not schedule leave it in that state |
| SchedulerRuns.SelfWakeLoses | kernel/proc/process.c:138-158 | so such a sleep and the call after it lose the caller exactly when that call is a yield or a tick |
| SchedulerRuns.LostStays | kernel/proc/process.c:135-199 | no later call of any kind dispatches a process lost in that way |
| SchedulerRuns.QueueAdvances | kernel/proc/process.c:35-50 | whatever calls interleave, a process at queue index k is at index k - n after n schedule calls |
| SchedulerRuns.DispatchedInTurn | kernel/proc/process.c:35-165 | a process at queue index k is dispatched by exactly the (k+1)-th following schedule call |
| SchedulerRuns.SleepsUntilDue | kernel/proc/process.c:137-144 | a sleeper is neither queued nor dispatched before its wake tick |
| SchedulerRuns.WokenWhenDue | kernel/proc/process.c:137-161 | the first schedule call at or past the wake tick queues the sleeper or runs it |
| SchedulerRuns.SleepLasts | kernel/proc/process.c:185-189 | whatever is called, a sleeper of ms milliseconds is neither queued nor current while all schedule calls come at ticks t with 10 (t - now) + 10 <= ms, and the first later one queues or runs it; less than 10 ms is over at once |
| SchedulerRuns.SleepWraps | kernel/proc/process.c:185-189 | a sleep beyond the 32-bit range of wake_tick is over at once |
| SchedulerRuns.IdleSleepsOn | kernel/proc/process.c:135-161 | PID 0 asleep is never queued by time and runs again exactly when a schedule call finds nobody ready or due |
| SchedulerRuns.CreateQueues | kernel/proc/process.c:53-131 | the lowest free slot gets the next PID and is queued last, READY; a full table refuses |
| SchedulerRuns.UnblockQueues | kernel/proc/process.c:178-183 | proc_unblock queues a blocked process last, READY, and does nothing to any other |
| SchedulerRuns.BlockedStays | kernel/proc/process.c:173-183 | a blocked process is neither queued nor current until it is unblocked, whatever else is called |
| SchedulerRuns.CallerAfter | kernel/proc/process.c:133-198 | a caller that blocks or exits is BLOCKED or ZOMBIE and gone from the queue; one that yields or is preempted is READY at its end |
| SchedulerRuns.EverySecondTick | kernel/proc/process.c:210-217 | over every run the ticks that preempt are half of the ticks, whatever is called in between |
| SchedulerRuns.ExitedStays | kernel/proc/process.c:191-196 | an exited process never runs again and its slot is never reused |
| Scheduler.WakeEffect | kernel/proc/process.c:137-144 | the wake loop makes exactly the due sleepers ready and puts exactly them behind what was queued, touching nothing else |
| Scheduler.WakeInOrder | kernel/proc/process.c:136-144 | sleepers woken together queue up in the order of their slots |
| Scheduler.SwitchEffect | kernel/proc/process.c:146-161 | what a switch does to queue and processes: head out, a still running caller to the end, nobody else touched |
| SchedulerQueue.Kernel.constructor | kernel/proc/process.c:66-95 | proc_init on the arrays is Init |
| SchedulerQueue.Kernel.Enqueue | kernel/proc/process.c:35-41 | the walk along next appends to the queue the links represent |
| SchedulerQueue.Kernel.Dequeue | kernel/proc/process.c:44-50 | the head is unlinked and returned; the links represent the rest |
| SchedulerQueue.Kernel.Schedule | kernel/proc/process.c:135-165 | the new state is Schedule of the old one |
| SchedulerQueue.Kernel.Block | kernel/proc/process.c:173-176 | the new state is the blocking step |
| SchedulerQueue.Kernel.Unblock | kernel/proc/process.c:178-183 | the new state is the unblocking step |
| SchedulerQueue.Kernel.Sleep | kernel/proc/process.c:185-189 | the new state is the sleeping step, wake tick cut to 32 bits |
| SchedulerQueue.Kernel.Exit | kernel/proc/process.c:191-196 | the new state is the exit step |
| SchedulerQueue.Kernel.Tick | kernel/proc/process.c:211-217 | every second tick schedules |
| SchedulerQueue.Kernel.CreateKernel | kernel/proc/process.c:98-132 | the lowest free slot gets the next PID and joins the queue; NULL when the table is full |
| Vfs.OpenResolves | kernel/fs/vfs.c:85-152 | vfs_open resolves the non-empty components of the path as the fold that prefers the mount at each walked prefix (where the whole text is not itself a mount path) |
| Vfs.OpenInParent | kernel/fs/vfs.c:111-149 | with no mount at the path itself, vfs_open gives what finddir finds under the last name in the directory the parent resolves to, and nothing when that is not a directory |
| Vfs.OpenBelowMount | kernel/fs/vfs.c:96-149 | with mounts at / and /d, opening /d/e looks e up in what is mounted at /d |
| Vfs.LookupIsFirst | kernel/fs/vfs.c:69-74 | of several mounts at one path the first in the table counts |
| Vfs.TrailingSlash | kernel/fs/vfs.c:88-91 | one slash at the end of a path makes no difference |
| Vfs.WalkResolves | kernel/fs/vfs.c:111-149 | the walking loop, from any point reached, gives the fold's result |
| Vfs.ShortcutAgreesIff | kernel/fs/vfs.c:96-98 | the exact-mount shortcut agrees with the fold exactly when the parent resolves and the last name fits its buffer |
| Vfs.ShortcutAlone | kernel/fs/vfs.c:96-98 | an input on which they differ: with one mount at /a/b and nothing else to be found, the shortcut gives the mount and the fold nothing |
| Vfs.AbsoluteComponents | kernel/fs/vfs.c:111-121 | the components read from an absolute path are those it was made of |
| Vfs.FileSystems.Open | kernel/fs/vfs.c:85-152 | the result is OpenPath of the mount table; every node finddir made is freed exactly once except a result that is one of them, and no mount root is ever freed |
| Vfs.FileSystems.WalkPath | kernel/fs/vfs.c:100-151 | the same for the walking loop, the walked path never outgrowing its buffer |
| Vfs.FileSystems.Enter | kernel/fs/vfs.c:115-148 | one component: too long a name, a mount, a non-directory, a missing and a found child, each with what is freed, in the order of the code; no node is used or freed after it was freed |
| Vfs.FileSystems.FindMount | kernel/fs/vfs.c:69-74 | the first used entry with that path |
| Vfs.FileSystems.IsMountRoot | kernel/fs/vfs.c:62-67 | true exactly for nodes in a used mount entry |
| Vfs.FileSystems.Mount | kernel/fs/vfs.c:46-57 | the first free slot takes path and node, the root path sets the root, 16 used slots refuse |
| Users.ParseIsByLines | kernel/user.c:72-87 | the character loops read what the format means: for each line name:pass:rest with fields short enough one user, in order, until 16 are read |
| Users.OneTurnIsOneLine | kernel/user.c:73-82 | one turn of the loop consumes exactly one line and reads the user that line means, if any |
| Users.LineMeans | kernel/user.c:72-87 | a line name:pass:rest means that user with the digit behind the second colon as privilege, 0 when there is none |
| Users.LoadOfSave | kernel/user.c:24-87 | loading what was saved gives the active users in order, for well-formed users |
| Users.LoadOfSaveIff | kernel/user.c:24-87 | it gives them back exactly when each active user is well formed: a name of 1 to 15 bytes, a password of at most 31, neither with a colon or newline, a privilege of at most 9 |
| Users.ColonIsLost | kernel/user.c:107-113 | user_add takes a user named a:b into any table with room, and the saved text then does not give the table back |
| Users.LoadSaveLoad | kernel/user.c:24-87 | for any text, saving the users read from it and reading them again gives the same users |
| Users.DefaultLine | kernel/user.c:24-36 | the default root account reads root:admin:2 in the file |
| UsersFile.SavedOnVolume | kernel/user.c:24-60 | on a StackFS volume whose passwd file has no hole and has or can get a block, writing the text and reading the file whole gives the new text over the old file, nothing cut off |
| UsersFile.LoadAfterSave | kernel/user.c:24-92 | loading then gives the active users followed by what the lines left behind the new text mean, 16 at most |
| UsersFile.LoadAfterSaveIff | kernel/user.c:24-92 | so the users saved are the users loaded exactly when no line behind the new text means a user, or 16 are active |
| UsersFile.DeletedUserReturns | kernel/user.c:114-120 | the failing family: deleting the last user of a saved table leaves the file as it was, and the next load brings the user back |
| Users.ParsedAreWellFormed | kernel/user.c:72-87 | whatever the text, every user read is well formed |
| Users.PrintFits | kernel/user.c:25-35 | sixteen users never overflow the printer's buffer |
| Users.UserTable.Save | kernel/user.c:25-35 | the copying loops write Print of the table into the buffer, inside its bounds |
| Users.UserTable.Load | kernel/user.c:70-87 | the loops leave Parse of the text in the table; termination included |
| Checksum.FoldIsResidue | kernel/net/net.c:76 | the carry loop ends with the sum's residue modulo 65535 in 1..65535, and with 0 for 0 alone |
| Checksum.StoredChecksumVerifies | kernel/net/net.c:72-78 | storing the checksum in a zeroed 16-bit-aligned field makes the checksum of the whole 0 (as lines 159 and 195 use it) |
| Checksum.OneWordChangeShows | kernel/net/net.c:72-78 | after a change of one aligned word a packet that verified verifies again exactly when nothing changed or the two one's-complement zeros were exchanged |
| Checksum.MachineOrderIsNetworkOrder | kernel/net/net.c:72-78 | the little-endian result stored natively is, byte for byte, the big-endian checksum of section 1 of RFC 1071 |
| Checksum.StoredUdpVerifies | kernel/net/net.c:231-240 | a datagram with its checksum in the header verifies over the addresses the sender summed |
| Checksum.PseudoFields | kernel/net/net.c:80-90 | the pseudo-header holds source, destination, zero, protocol 17 and the length, in network order |
| Checksum.WireAddressReversed | kernel/net/net.c:154-158 | htonl and taking the bytes from the top put an address on the wire with its bytes reversed |
| Checksum.StoredUdpOnWireIff | kernel/net/net.c:154-240 | over the addresses in the IP header the datagram verifies exactly when the skews of the two addresses, a1 - a2 - a0 + a3 each, cancel modulo 257 |
| Checksum.UserNetworkFails | kernel/net/net.c:154-240 | the failing pair: from 10.0.2.15 to 10.0.2.3 no datagram verifies |
| Checksum.NetChecksum | kernel/net/net.c:72-78 | the loops compute the folded complement of the word sum without 32-bit overflow |
| Checksum.UdpChecksum | kernel/net/net.c:80-97 | udp_checksum is the checksum of the pseudo-header followed by the segment |
| Dhcp.ParseIsMeaning | kernel/net/net.c:318-339 | on any well-formed option list, padding included, the parser finds for every tag the value of the last option of an acceptable length |
| Dhcp.ReplyReceived | kernel/net/net.c:341-377 | of a packet laid out field by field: it is dropped when shorter than 552 bytes, not a reply, of another transaction or without the magic number; otherwise its options count, and the first OFFER, an ACK after it and a NAK set the address to yiaddr, yiaddr and 0 |
| Dhcp.SentItemsSay | kernel/net/net.c:390-403 | what a server reads in the options sent: type, client id, the options asked for, and in a REQUEST only the address and server chosen |
| Dhcp.SentOptionsParse | kernel/net/net.c:391-403 | the parser recovers the message type, and from a REQUEST the server, out of the options dhcp_send_pkt writes |
| Dhcp.SentOptionsEncode | kernel/net/net.c:391-403 | the bytes written are the encoding of the option list meant |
| Dhcp.AckNeedsOffer | kernel/net/net.c:341-377 | over any packets since a reset, dhcp_got_ack is set exactly when a matching OFFER was followed by a matching ACK with no NAK between them; dhcp_got_offer exactly when an OFFER came after the last NAK |
| Dhcp.AckedAddressStands | kernel/net/net.c:365-372 | the address of the last ACK stands until a NAK, whatever OFFERs follow |
| Dhcp.AddressHeld | kernel/net/net.c:363-376 | the address held after any packets since a reset: that of the last ACK behind the first OFFER since the last NAK, without one that OFFER's, without an OFFER 0 |
| Dhcp.AcknowledgedIff | kernel/net/net.c:363-376 | the address held was acknowledged exactly when an OFFER was followed by an ACK with no NAK between them or after; dhcp_got_ack does not say so |
| Dhcp.NakAfterAck | kernel/net/net.c:373-376 | a NAK after the ACK zeroes address and server but leaves dhcp_got_ack set |
| Dhcp.OfferAfterNak | kernel/net/net.c:365-376 | another OFFER after that NAK leaves the client successful with an address nobody acknowledged |
| Dhcp.DhcpClient.ParseOptions | kernel/net/net.c:318-339 | the cursor loop is ParseOpts of the old state |
| Dhcp.DhcpClient.Arrive | kernel/net/net.c:341-377 | the new state is Receive of the old one, drop conditions included |
| Dhcp.WriteOptions | kernel/net/net.c:391-403 | the byte writes produce SentOptions and leave the rest of the field alone |
| Raster.LineIsDrawn | kernel/gui/fb.c:184-194 | for all end points, in integers of any size: the pixels lead from (x0, y0) to (x1, y1) in max(abs(dx), abs(dy)) steps along the longer axis, each one pixel from its neighbour, in the box of the end points and within half a pixel of the ideal line |
| Raster.LineFitsIff | kernel/gui/fb.c:185-192 | no value computed leaves 32 bits exactly when the extents do not and two extremes of the error, given by the extents and their greatest common divisor, do not |
| Raster.LongLineOverflows | kernel/gui/fb.c:190-191 | the failing input: with extents 715827884 and 1 the doubled error exceeds 2^31 - 1 after 357913942 turns |
| Raster.LongLines | kernel/gui/fb.c:185-192 | the range of fb_line: long horizontal and vertical lines and the whole diagonal fit, extents 715827883 and 1 just do |
| Raster.SmallLinesFit | kernel/gui/fb.c:185-192 | extents up to a third of 2^31 - 1 always fit |
| Raster.Line | kernel/gui/fb.c:184-194 | in 32-bit arithmetic, for exactly the lines that LineFitsIff admits: the loop draws the pixels of LineIsDrawn and ends at (x1, y1) |
| Raster.StepStaysNear | kernel/gui/fb.c:189-192 | one turn steps the longer axis always and keeps j dx - i dy within half the longer extent, on a half-open range |
| Raster.ErrIsSmall | kernel/gui/fb.c:185-192 | the doubled error stays within twice the difference of the extents plus the longer one |
| Circles.OctantStays | kernel/gui/fb.c:196-210 | every generated octant point has abs(x^2 + y^2 - r^2) <= y |
| Circles.DecisionSteps | kernel/gui/fb.c:197-209 | both updates keep d equal to 2(x+1)^2 + y^2 + (y-1)^2 - 2r^2 |
| Circles.CircleDraws | kernel/gui/fb.c:196-210 | for every radius, in integers of any size: the loop ends with the decision value exact throughout and draws the marks of the octant in order |
| Circles.CircleFitsIff | kernel/gui/fb.c:197-209 | no value of the loop leaves 32 bits exactly for radii from -(2^30 - 2) to 2^29 + 23170 |
| Circles.Circle | kernel/gui/fb.c:196-210 | in 32-bit arithmetic, for exactly those radii: the marks of the octant in order |
| Circles.MarksFit | kernel/gui/fb.c:199-207 | no coordinate or length drawn leaves 32 bits when the circle lies inside that range |
| Circles.OutlineIsRound | kernel/gui/fb.c:203-207 | every pixel of an outline is within rounding of the circle and inside the radius |
| Circles.OutlineIsSymmetric | kernel/gui/fb.c:203-207 | the outline has all mirror images of each of its pixels |
| Circles.OutlineMeetsColumns | kernel/gui/fb.c:196-210 | every column within the radius has a pixel of the outline |
| Circles.DiscIsFilled | kernel/gui/fb.c:199-202 | a filled circle covers every lattice point within the radius |
| Circles.FillStaysInDisc | kernel/gui/fb.c:199-202 | and nothing beyond rounding |

## Left out

- Hardware: ATA transfers and their errors, PCI, e1000, timer, VGA, serial, CR3 and TLB writes, `switch_context` and stack frames. The disk is an array of sectors that does not fail, the timer a `now` that each call is given, a dispatch sets `current`. That the CPU, once paging is on, can itself reach the frames that hold page tables is not modelled.
- Kernel messages, shell commands, keyboard, fonts, terminal, clipping and flushing of the framebuffer, sbrk, kcalloc, initrd.
- StackFsRuns.RunKeeps: operations name live directories and files, as the VFS hands them out, and names without a NUL; create and mkdir themselves check neither.
- StackFsRuns.UnlinkRemovesName: says nothing of the children of an unlinked directory, which the code does not reclaim.
- StackFsDisk.Volume.Finddir: whether kmalloc finds room for the node is a parameter. Names in a directory must be terminated, which the invariant gives.
- StackFsDisk.Volume.Write: `node->size` of the caller's node is not modelled.
- `bfs_readdir` is not modelled; it stops at the first hole that an unlink leaves.
- Crashes in the middle of an operation; the creation and modification times, which are always 0.
- StackFsDisk.Volume.Format: a disk of more than 131072 data blocks, for which the bitmap is too small.
- Heap.AllocKeeps: splits as intended, which is what the code does unless the fit leaves fewer than 20 bytes; then no block list exists (NearExactCorrupts).
- Heap.AllocAddsOne: the same.
- Heap.AllocThenRelease: the same.
- Heap.RunKeeps: the same; HeapMemory.KernelHeap.Serve is about the code.
- HeapMemory.KernelHeap.KFree: a pointer is 0, the payload of a block in the list, or one whose header words make kfree ignore it; a stale pointer whose old header has since been overwritten with the magic and a zero free word is not covered. A size between 2^32 - 7 and 2^32 - 1 is rounded to 0 as in the code.
- HeapMemory.KernelHeap.constructor: memory continues for at least a header behind the region, where a wrapped split may write.
- PagingFrames.AllFramesReturn: callers map distinct frames fresh from the allocator into the user half, on pages not mapped yet, and free a frame when they unmap it or its mapping fails; other mappings are covered by Paging.RunIsolates.
- PagingMachine.Machine.constructor: the four static tables are filled one after the other, where the code shares loops between them.
- PagingMachine.Machine.Create: the kernel's directory is a frame in use, as pmm_init makes it.
- SchedulerRuns.Run: PID 0, the boot and shell context, neither blocks nor exits; a sleeper does not wake itself (SleepKeepsIff and SelfWokenLosesIff cover that case); tick counts stay below 2^32.
- SchedulerQueue.Kernel.CreateKernel: the stack, page directory, name and parent of the process, and a failing kmalloc, are not modelled.
- Vfs.FileSystems.Open: the file systems do not change during a walk, and finddir makes a new node for every entry found (initrd's nodes come from a pool). A path of 511 or more bytes must start with a slash, because the walked path would otherwise outgrow its buffer; longer paths are cut to 511 bytes as in the code. The use a file system makes of its own node is not modelled.
- Users.UserTable.Save: the steps that find or create /disk/etc/passwd are not modelled; UsersFile takes the file's inode as given.
- Users.UserTable.Load: the file is read whole and is a text up to its first NUL; reading errors are not modelled. The fields of a user are the C strings in its arrays.
- Dhcp.DhcpClient.Arrive: an option 53 of length 0 at the very end reads the byte behind the packet, which is a parameter; waiting, retries and the configuration of the interface in dhcp_request are not modelled.
- Checksum.UdpChecksum: the code does not replace a zero checksum by 0xFFFF.
- Whether the addresses that arrive in ARP packets are those sent: like the IPv4 header they carry reversed bytes, and the model makes no claim beyond StoredUdpOnWireIff.
- Raster.Line: lines on which a C integer overflows (LineFitsIff says which). Colour and clipping are left out.
- Circles.Circle: radii outside the range of CircleFitsIff; the coordinates handed to the pixel routines are integers of any size (MarksFit bounds them).
