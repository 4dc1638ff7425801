# Verified model of rCore and easy-fs

This project models, in Dafny 4.11, the core of a small teaching system: the easy-fs file system and
the memory management, scheduling, synchronisation and pipes of the kernel that uses it. Nothing is
assumed or left without a body; `dafny verify dfyconfig.toml` checks all of it.

## What is modelled

`Basics` holds what all parts share.

**easy-fs.** `Bytes`, `Codec`, `Bits` and `BitmapAlloc` give the byte layout of words, inode slots, the
superblock, directory entries and bitmaps. `BlockCache` is the 16-entry write-back cache as a class with
its queue, dirty flags and handle counts; its ghost field `blocks` is the plain block array that the cache
must look like. `Layout` and `DiskInodes` are the index tree of an inode, `Growing` its whole life,
`FileData` reading and writing through it. `Volume` states the on-disk invariant: a map of inodes to files,
an owner for each used block, zeroed free blocks, zeroed tails and zeroed unused pointers and index entries. `Efs`, `Vfs` and `Directory` are the
operations on that volume, written over the cache and not over the array, and `History` relates every
history of calls to an insertion-ordered map from names to byte strings.

**Memory.** `Address` is the Sv39 arithmetic, `PageTables` the frame allocator and the three-level table
over a memory of frames of 512 words, `MemorySets` areas and address spaces, `KernelMemory` fork, drop and
the accounting of all frames, `KernelRuns` whole histories of address spaces, `UserBuffers` the translation of user ranges into slices of physical bytes.

**Tasks.** `TaskSteps` says what each kernel call does to the state of all threads, `TaskLaws` what every history
of such calls keeps, told from the calls and not from what they do. `Scheduler` is the ready queue, processor slot, timers and wait queues as one class whose methods
are the kernel's atomic sections; `Sync` is the semaphore, the blocking mutex and the condition variable by
themselves; `Deadlock` is the semaphore deadlock detector; `Pipes` is the ring buffer with interleaved
readers and writers.

Code that changes things step by step is modelled by classes and loops with the same steps. Each such method
is specified by a function or relation on values, and the laws are proved about those. The kernel runs on one
core and is not preempted, so a system call up to the next switch is one step.

## Reading the results

The main theorems are `History.FromScratch`, `Growing.GrowThenClear`, `BlockCache.Run`, `PageTables.Run`,
`KernelMemory.Fork`, `KernelRuns.Run`, `UserBuffers.Iterate`, `Pipes.PipeSystem.Run`,
`Deadlock.Detect`, `Sync.RunSemaphore`, `Sync.RunMonitor`, `Scheduler.TaskSystem.Run`,
`Scheduler.TaskSystem.ExitThenRun`, `Scheduler.TaskSystem.Partition`, and the laws of histories `History.ReadAfter`,
`TaskLaws.MutexLaw`, `TaskLaws.QueueLaw`, `TaskLaws.SleepLaw`, `KernelRuns.StepPage` and `Pipes.TurnsDeliver`.

Three promises do not hold on all inputs. A zero-length `write_at` at a block boundary looks up a block that
need not exist (`Vfs.BlockExists`); this goes wrong exactly where that block would need a new index block, and
there it does on every disk of at most 998244353 blocks, for example at the end of a file of 28 blocks
(`Vfs.EmptyWriteExact`, and `Vfs.EmptyWriteBeyond` for writes behind the end). A directory
name survives the trip through its entry exactly under the condition in `Codec.EntryRoundTrip`. A user buffer is
translated completely exactly under the condition in `UserBuffers.CompleteIff`, and `UserBuffers.NeverEnds` says
where the translation does not end, for example for the five bytes from address 2^39 + 5, or panics, for example for
the two bytes from address 2^39 - 1; `UserBuffers.OneSlice` has the other ranges that panic or yield one empty slice.

Where the source panics, the model either proves the panic unreachable (cache overflow with few handles,
freeing a free block or frame, the length check in `clear`), or reports it as a result (`ok`, `null`, `None`)
with the condition under which it happens, or asks for its absence as a precondition named under
"Left out". `translate` returns an entry even when it is not valid, as the code does; its caller-visible
meaning is stated with validity.

## Model

| member | source | states |
|---|---|---|
| `History.FromScratch` | easy-fs/src/efs.rs:32-122 | Whatever the device held, `create` followed by any legal list of create, write, read, clear, find and ls calls gives exactly the outcomes and the final contents of an insertion-ordered map from names to byte strings, where the k-th created file is found at the position of inode k, on the planned geometry of that device and with the cache in step with it; mounting the bare device again through a new, cold cache finds the same map. |
| `History.Run` | easy-fs/src/vfs.rs:57-199 | The same refinement from any mounted volume: each outcome and the final state are those of the map, the volume invariant holds at the end, and the device is in step with the cache when it was before. |
| `History.LastByteCounts` | easy-fs/src/vfs.rs:173-199 | After every history each position of a file holds what the last write over it or the last clear left there, and the file ends where the furthest write since the last clear ended. |
| `History.ReadAfter` | easy-fs/src/vfs.rs:173-176 | A read at the end of every history returns, up to the end of the file, at each position what the last write over it or the last clear left. |
| `History.NamesAfter` | easy-fs/src/vfs.rs:106-171 | A listing at the end of every history is the old names followed by the created ones, each once, in order of creation. |
| `History.Remount` | easy-fs/src/efs.rs:94-122 | A new cache over the same device contents, `open` and `root_inode` recover geometry, directory and all files, leave the device in step with the new cache, and no other geometry, files and entries fit the bytes of the device. |
| `History.MapDetermined` | easy-fs/src/efs.rs:94-122 | The bytes of a disk determine the map: any two descriptions that satisfy the volume and directory invariants on the same blocks stand for the same names and contents. |
| `Volume.VolumeDetermined` | easy-fs/src/layout.rs:94-178 | The blocks of a disk determine geometry, allocated inodes, every block list, every content and every owner. |
| `Directory.DirDetermined` | easy-fs/src/layout.rs:409-452 | The bytes of the root directory determine its entries. |
| `History.UsedIsFunctionOfMap` | easy-fs/src/layout.rs:133-153 | The number of used data blocks is determined by the map of names to contents: the sum of `total_blocks` over root directory and files. |
| `Vfs.WriteAt` | easy-fs/src/vfs.rs:178-186 | The file becomes the old contents, zero-padded up to the offset and overlaid by the buffer; every other file keeps contents and blocks; blocks already held are kept and exactly the missing number is taken; afterwards the device equals the cached view. A write of no bytes is included unless the block at the offset would need a new index block. |
| `Vfs.ReadAt` | easy-fs/src/vfs.rs:173-176 | Returns the bytes from the offset to the end of buffer or file, whichever is first, and leaves the rest of the buffer as it was. |
| `Vfs.Clear` | easy-fs/src/vfs.rs:188-199 | The file becomes empty and exactly its data and index blocks become free; the length assertion and the bit-set assertion hold; every other file is unchanged. |
| `Vfs.GrowInode` | easy-fs/src/vfs.rs:89-104 | Growing appends zero bytes, or does nothing when the file is already large enough; this rests on free blocks and bytes past the size being zero. |
| `Vfs.AllocBlocks` | easy-fs/src/vfs.rs:98-103 | The allocation loop yields distinct zeroed blocks that no file owned, all inside the data area. |
| `Vfs.DeallocBlocks` | easy-fs/src/vfs.rs:188-199 | The deallocation loop clears and zeroes exactly the listed blocks, and the bit-set assertion of `dealloc` never fails. |
| `Vfs.BlockExists` | easy-fs/src/layout.rs:374-394 | After growing, the block at the write offset exists if and only if the write is not an empty one at a block boundary at or behind the end of the file. |
| `Vfs.EmptyWriteExact` | easy-fs/src/layout.rs:374-394 | For a file of exactly i blocks in any volume, the lookup that an empty write at its end makes reads the superblock as an index block and takes the magic number for a block number if i is 28, 156 or 156 plus a multiple of 128, and ends harmlessly at block 0 for every other i; so on a disk of at most that many blocks it leaves the disk exactly then. |
| `Vfs.EmptyWriteBeyond` | easy-fs/src/vfs.rs:178-186 | The same for an empty write at a block boundary behind the end, which first grows the file to i blocks. |
| `FileData.WriteOne` | easy-fs/src/layout.rs:379-402 | One iteration splices its bytes into the file, or, where an empty write finds no block, modifies block 0 to what it already is. |
| `Vfs.FinishWrite` | easy-fs/src/vfs.rs:178-186 | The stages of a write, allocation, growth of the tree and data, put together re-establish the volume invariant with one file changed. |
| `Volume.NoSharing` | easy-fs/src/efs.rs:138-159 | In every state of the volume invariant a block occurs at most once among the block lists of all inodes. |
| `Volume.NoLeak` | easy-fs/src/efs.rs:138-159 | The set bits of the data bitmap are exactly the blocks in the lists of the inodes. |
| `Volume.BitsAreReached` | easy-fs/src/layout.rs:155-178 | A bit of the data bitmap is set exactly when its block is reached from an allocated inode, as a data block through `get_block_id` or as an index block. |
| `Volume.UsedIsSumOfTotals` | easy-fs/src/layout.rs:133-153 | The number of set bits in the data bitmap is the sum of `total_blocks(size)` over all allocated inodes. |
| `Volume.SlotsDisjoint` | easy-fs/src/efs.rs:124-132 | Distinct inode numbers have distinct slots that do not overlap and lie inside the inode area. |
| `Volume.CommitWrite` | easy-fs/src/vfs.rs:178-186 | Extending one inode by newly claimed blocks keeps ownership, bitmaps, zeroed free blocks and all other files. |
| `Volume.CommitClear` | easy-fs/src/vfs.rs:188-199 | Giving all blocks of one inode back keeps the same. |
| `Efs.EasyFileSystem.Create` | easy-fs/src/efs.rs:32-92 | Establishes the volume invariant for an empty root directory at inode 0, written through to the device: an inode bitmap of exactly 4096 bits per block asked for, from block 1, an inode area behind it, the data bitmap at block 1 + 1025 * ib, and a data area up to the last block. |
| `Efs.Format` | easy-fs/src/efs.rs:58-80 | Clearing every block and writing the superblock gives a volume without inodes. |
| `Efs.EasyFileSystem.Open` | easy-fs/src/efs.rs:94-114 | Recovers from the superblock the geometry that `create` chose, and with it the whole volume; no block changes. |
| `Efs.PlanTiles` | easy-fs/src/efs.rs:37-57 | The five regions tile the disk, with the inode bitmap asked for, 1024 inode blocks for each of its blocks and a data bitmap that covers the data area with less than a block to spare; no other geometry does. |
| `Efs.EasyFileSystem.AllocData` | easy-fs/src/efs.rs:143-145 | The least free data block, inside the data area whenever fewer than `data_area_blocks` bits are set, although the bitmap may have spare bits. |
| `Efs.EasyFileSystem.DeallocData` | easy-fs/src/efs.rs:147-159 | Zeroes the block, clears its bit and changes nothing else; the assertion in `dealloc` holds. |
| `Efs.EasyFileSystem.AllocInode` | easy-fs/src/efs.rs:138-140 | The least free inode number; only its bit changes. |
| `Efs.EasyFileSystem.NewInode` | easy-fs/src/vfs.rs:117-126 | The least free inode number becomes an empty file and nothing else changes. |
| `Efs.EasyFileSystem.GetDiskInodePos` | easy-fs/src/efs.rs:124-132 | Block 1 + ib + id / 4 and byte offset 128 * (id % 4), the inode's slot. |
| `Directory.FileSystem.Create` | easy-fs/src/vfs.rs:106-152 | Fails exactly on an existing name; otherwise appends one entry for an empty file under the next inode number, and leaves all other files alone. |
| `Directory.FileSystem.Find` | easy-fs/src/vfs.rs:74-87 | Finds a name exactly when it was created, and returns the inode position given at its creation. |
| `Directory.FileSystem.FindInodeId` | easy-fs/src/vfs.rs:57-72 | The search loop over decoded entries finds the entry of that name, or none exactly when there is none. |
| `Directory.FileSystem.Ls` | easy-fs/src/vfs.rs:156-171 | The names in creation order. |
| `Directory.FileSystem.ReadEntry` | easy-fs/src/vfs.rs:60-66 | Reading 32 bytes at entry `i` gets all 32 and decodes to the `i`-th name and number. |
| `Directory.AppendEntry` | easy-fs/src/vfs.rs:127-140 | Writing an encoded entry behind the last one appends it to the directory it encodes. |
| `Directory.NextId` | easy-fs/src/vfs.rs:117-121 | As files are never removed, the least free inode number is one more than the number of entries, so it fits the 32-bit field. |
| `Directory.RootInode` | easy-fs/src/efs.rs:116-122 | The handle of inode 0. |
| `Growing.GrowThenClear` | easy-fs/src/layout.rs:150-326 | For any number of `increase_size` calls with distinct blocks, the blocks of the file afterwards are all blocks handed over without those that became index blocks, in order, block i being element i, i+1 or i+3+(i-156)/128, however they were split among the calls, and `clear_size` returns all of them in that order. |
| `DiskInodes.DiskInode.IncreaseSize` | easy-fs/src/layout.rs:180-251 | The tree afterwards spells the old list followed by the new blocks, each consumed once; only index blocks among them were written, and in those no entry that stays unused. |
| `DiskInodes.DiskInode.ClearSize` | easy-fs/src/layout.rs:256-326 | Returns exactly the list the tree was grown with, in order, without changing any block, and resets the record. |
| `DiskInodes.DiskInode.GetBlockId` | easy-fs/src/layout.rs:155-178 | The element of the block list at the position of logical block `i`; 0 for the first block behind the end unless that needs a new index block. |
| `Layout.BehindTheEnd` | easy-fs/src/layout.rs:155-178 | With unused pointers and entries zero, looking up the first block behind the end gives 0 except where an index block is missing. |
| `DiskInodes.DiskInode.FillDirect` | easy-fs/src/layout.rs:190-194 | Fills direct slots from the new blocks and keeps the rest. |
| `DiskInodes.DiskInode.FillIndirect1` | easy-fs/src/layout.rs:205-213 | Fills the single-indirect block under one handle; the tree grows by those blocks. |
| `DiskInodes.DiskInode.FillIndirect2` | easy-fs/src/layout.rs:225-250 | Fills the double-indirect tree from where it ended to where it must end. |
| `DiskInodes.DiskInode.FillOne` | easy-fs/src/layout.rs:233-249 | One iteration: links a new sub-index block when one starts, then enters one data block. |
| `DiskInodes.DiskInode.ClearDirect` | easy-fs/src/layout.rs:260-266 | Pushes and zeroes the direct entries. |
| `DiskInodes.DiskInode.ClearIndirect1` | easy-fs/src/layout.rs:275-284 | Pushes the entries of the single-indirect block. |
| `DiskInodes.DiskInode.ClearIndirect2` | easy-fs/src/layout.rs:293-323 | Pushes the full sub-index blocks and the last, partly filled one, each before its entries. |
| `Layout.BlockIdIsDataPos` | easy-fs/src/layout.rs:155-178 | Lookup through direct, single and double indirect pointers is the position formula on the list. |
| `Layout.DataPosFacts` | easy-fs/src/layout.rs:133-178 | Data positions increase and are never index positions, so no data block is an index block. |
| `Layout.PosCases` | easy-fs/src/layout.rs:133-148 | Every position of the list is that of a data block or of an index block. |
| `FileData.ReadAt` | easy-fs/src/layout.rs:328-366 | The loop over blocks copies exactly the file's bytes from the offset up to its end. |
| `FileData.WriteAt` | easy-fs/src/layout.rs:368-404 | The loop over blocks overlays the file's bytes and writes only data blocks of that file. |
| `FileData.WriteStep` | easy-fs/src/layout.rs:383-395 | Splicing bytes into one data block splices them into the file at that place. |
| `FileData.GrowBytes` | easy-fs/src/vfs.rs:89-104 | Adding zeroed blocks appends zero bytes. |
| `Codec.InodeRoundTrip` | easy-fs/src/layout.rs:94-105 | A slot holds what was stored in it: size, 28 direct pointers, the two indirect pointers and the type at byte offsets 0, 4, 116, 120 and 124. |
| `Codec.InodeSlotsDisjoint` | easy-fs/src/efs.rs:124-132 | Storing one slot of an inode block leaves the other slots alone. |
| `Codec.SuperRoundTrip` | easy-fs/src/layout.rs:28-78 | The superblock reads back what was written, its six words in the order of the source. |
| `Codec.EntryRoundTrip` | easy-fs/src/layout.rs:409-452 | An entry is the name, padded with NUL to 28 bytes, and the number at offset 28; the number always comes back, the name exactly when it has at most 27 bytes and no NUL. |
| `BitmapAlloc.WordBits` | easy-fs/src/layout.rs:94-107 | Words are stored with the least byte first: bit j of a word is bit j % 8 of its byte j / 8. |
| `BitmapAlloc.BlockBitByte` | easy-fs/src/bitmap.rs:17-21 | Bit i of a bitmap block, seen as 64 words of 64 bits, is bit i % 8 of its byte i / 8. |
| `BlockCache.Run` | easy-fs/src/block_cache.rs:20-148 | For every run of get, drop, load, store and sync calls that keeps at most 16 blocks held, loads return what a plain array would, the final contents are the plain array's, and after a final sync the device equals it. |
| `BlockCache.LastStoreCounts` | easy-fs/src/block_cache.rs:28-110 | On the plain array a block holds what was stored last, and a load returns that. |
| `BlockCache.BlockCacheManager.GetBlockCache` | easy-fs/src/block_cache.rs:95-125 | Afterwards the block is cached once and held once more; the view of the disk is unchanged, also when a dirty entry had to be evicted. |
| `BlockCache.PanicUnreachable` | easy-fs/src/block_cache.rs:103-116 | With at most 15 distinct pinned blocks some entry can always be evicted. |
| `BlockCache.BlockCacheManager.SyncAll` | easy-fs/src/block_cache.rs:143-148 | The device equals the plain array. |
| `BlockCache.BlockCacheManager.Sync` | easy-fs/src/block_cache.rs:65-77 | A dirty entry reaches the device and becomes clean; the view does not change. |
| `BlockCache.BlockCacheManager.Evict` | easy-fs/src/block_cache.rs:73-77 | Dropping an entry nobody holds loses nothing. |
| `BlockCache.BlockCacheManager.ReadHeld` | easy-fs/src/block_cache.rs:57-59 | A held entry shows the plain array's block. |
| `BlockCache.BlockCacheManager.ModifyHeld` | easy-fs/src/block_cache.rs:46-63 | A modification through a held entry is a store into the plain array. |
| `BlockCache.BlockCacheManager.Modify` | easy-fs/src/block_cache.rs:46-63 | Getting, modifying and releasing a block is one store into the plain array. |
| `BitmapAlloc.Bitmap.Alloc` | easy-fs/src/bitmap.rs:32-58 | The least clear bit is set and no other changes; `None` exactly when all are set. |
| `BitmapAlloc.Bitmap.Dealloc` | easy-fs/src/bitmap.rs:60-68 | A set bit is cleared and no other changes. |
| `BitmapAlloc.AllocInBlock` | easy-fs/src/bitmap.rs:39-52 | The first word that is not all ones and its run of trailing ones give the least clear bit of the block. |
| `Bits.TrailingOnesSpec` | easy-fs/src/bitmap.rs:40-45 | In a 64-bit word that is not all ones the run of trailing ones ends at the least clear bit. |
| `Bits.ClearBitSpec` | easy-fs/src/bitmap.rs:60-68 | Subtracting a set bit clears it and no other. |
| `PageTables.Run` | os/src/mm/page_table.rs:90-143 | Every run of `map` and `unmap` on the three-level tree has the translations of the same updates on a finite map, for all page numbers below 2^27, and two free frames per operation suffice. |
| `PageTables.LastOpDecides` | os/src/mm/page_table.rs:127-139 | After every run a page leads to the frame, with exactly the permissions, of the last `map` of it, is not mapped if it was unmapped last, and is as before if no call was on it. |
| `PageTables.SvWalk` | os/src/mm/page_table.rs:109-126 | What a page is mapped to is what the hardware walk of Sv39 finds: the entries selected by bits 18 to 26, 9 to 17 and 0 to 8 of the page number, all valid. |
| `PageTables.PageTable.Map` | os/src/mm/page_table.rs:128-132 | A page that was not mapped now leads to the given frame with exactly the given permissions and the valid bit; no other page changes; it succeeds exactly when the missing tables can be allocated. |
| `PageTables.PageTable.Unmap` | os/src/mm/page_table.rs:135-139 | One page stops being mapped, no other page changes, no memory outside the tables is written. |
| `PageTables.PageTable.Translate` | os/src/mm/page_table.rs:141-143 | The leaf entry whenever the upper levels exist; the page is mapped exactly when that entry is valid. |
| `PageTables.PageTable.FindPteCreate` | os/src/mm/page_table.rs:90-108 | Returns the place of the leaf entry after creating missing tables on new frames; no mapping changes. |
| `PageTables.PageTable.FindPte` | os/src/mm/page_table.rs:109-125 | Returns the place of the leaf entry exactly when the upper levels exist. |
| `PageTables.LeafStore` | os/src/mm/page_table.rs:128-139 | Because tables form a tree and indexes are injective, storing one leaf entry changes one page's mapping only. |
| `PageTables.LinkTable` | os/src/mm/page_table.rs:90-108 | Linking an empty table below an invalid entry keeps the tree and changes no mapping. |
| `PageTables.PhysicalMemory.Alloc` | os/src/mm/frame_allocator.rs:67-76 | A frame that nobody holds, cleared; `None` exactly when none is free. |
| `PageTables.PhysicalMemory.Dealloc` | os/src/mm/frame_allocator.rs:77-85 | A live frame becomes free; the panic for a frame that is not allocated is unreachable. |
| `Address.IndexesInjective` | os/src/mm/address.rs:166-177 | The three 9-bit indexes determine the page number below 2^27. |
| `Address.Indexes` | os/src/mm/address.rs:166-177 | The masking and shifting loop computes the three indexes, highest level first. |
| `Address.PteRoundTrip` | os/src/mm/page_table.rs:30-52 | Frame number, flags and validity come back from a packed entry. |
| `Address.WithVBits` | os/src/mm/page_table.rs:131 | The flags of an entry have exactly the bits asked for and bit 0. |
| `Address.PteBits` | os/src/mm/page_table.rs:32-36 | Bit j of an entry is bit j of the flags for j below 8, 0 for 8 and 9, and bit j - 10 of the frame number from 10 on. |
| `Address.EntryBits` | os/src/mm/page_table.rs:41-47 | The flags and the frame number read from any entry are its bits 0 to 7 and 10 to 53. |
| `Address.RangeOfPages` | os/src/mm/address.rs:104-118 | The pages from floor to ceil are exactly the pages that meet a byte range. |
| `KernelMemory.Fork` | os/src/mm/memory_set.rs:230-248 | The child maps the same area pages with the same permissions and equal contents on frames nobody held, and otherwise only the trampoline; the parent and everyone else keep mappings and contents; it succeeds whenever three frames per page and three more are free. |
| `KernelMemory.ForkArea` | os/src/mm/memory_set.rs:235-246 | One area is inserted and copied page by page. |
| `KernelMemory.CopyPages` | os/src/mm/memory_set.rs:239-245 | Every page of the area has the parent's contents; no other frame and no mapping changes. |
| `KernelMemory.MapTrampoline` | os/src/mm/memory_set.rs:98-104 | One mapping, with the permissions read and execute and no other, that no area records. |
| `KernelRuns.Run` | os/src/mm/memory_set.rs:41-295 | Every list of steps that create, fork, change and drop address spaces is carried through unless the frames run out, which needs fewer of them than an explicit budget; afterwards the kernel holds exactly the spaces that replaying the steps on lists of page ranges predicts, with those areas and permissions and exactly their pages and trampolines mapped, a space is there until a step drops it, and every frame ever handed out is accounted for as in the next row. |
| `KernelMemory.Kernel.Conservation` | os/src/mm/frame_allocator.rs:59-86 | In every state kept by the four steps below, a frame handed out so far is recycled, or is a table of exactly one address space, or backs exactly one page of one area of exactly one address space, and only one of these. |
| `KernelRuns.Perform` | os/src/mm/memory_set.rs:41-295 | One step on the kernel does what the step on lists of page ranges says, to the one space and to no other, and takes at most the frames it is budgeted; a step on a missing space or one that would panic is not made. |
| `KernelRuns.PerformCreate` | os/src/mm/memory_set.rs:50-55 | A new space has no areas and nothing mapped and takes one frame; it fails exactly when none is free. |
| `KernelRuns.PerformFork` | os/src/mm/memory_set.rs:230-248 | A fork step yields a space with equal areas, permissions and contents that has exactly its areas and the trampoline mapped, or does nothing where the source would panic on an area; it fails only for want of frames. |
| `KernelRuns.PerformChange` | os/src/mm/memory_set.rs:61-295 | A step on the areas of one space changes the list of areas and the mapped pages as in the source, or does nothing where the source would panic on a range; it fails only for want of frames. |
| `KernelRuns.PerformDrop` | os/src/mm/frame_allocator.rs:34-38 | The space is gone, its frames are free, and all other spaces are as before. |
| `KernelRuns.StillThere` | os/src/mm/memory_set.rs:41-295 | Replaying any list of steps, a space once created is there unless some step drops it. |
| `KernelRuns.StepPage` | os/src/mm/memory_set.rs:41-295 | Every step, page by page: a space keeps its pages but for those the step takes from it or gives to it, a dropped space has none, and a new one has none or those of the space it is a copy of. |
| `KernelRuns.InsertWorks` | os/src/mm/memory_set.rs:61-96 | An area inserted in a range free of areas and trampoline is there afterwards. |
| `KernelRuns.AppendWorks` | os/src/mm/memory_set.rs:284-295 | An area extended into a free range has the new pages. |
| `KernelRuns.RemoveWorks` | os/src/mm/memory_set.rs:73-86 | The pages of the first area with the given start are in no area after its removal. |
| `KernelRuns.ShrinkWorks` | os/src/mm/memory_set.rs:269-280 | The pages from the new end up to the old end are in no area after shrinking. |
| `KernelRuns.ForkWorks` | os/src/mm/memory_set.rs:230-248 | A space of Framed areas below the trampoline is always copied, and the copy has the same pages. |
| `KernelRuns.ReplayDisjoint` | os/src/mm/memory_set.rs:41-295 | In every history the areas of each space stay disjoint. |
| `KernelMemory.Alter` | os/src/mm/memory_set.rs:61-295 | Whatever of the four operations is applied, the list of areas becomes what the operation means on page ranges, exactly the pages of the areas and the trampoline stay the mapped ones, and other spaces' frames are not touched. |
| `KernelMemory.FitsIsApplicable` | os/src/mm/memory_set.rs:61-295 | Where exactly the areas and the trampoline are mapped, an operation meets no mapped page if and only if its range is apart from all of them. |
| `KernelMemory.ApplyRights` | os/src/mm/memory_set.rs:61-295 | Page by page, what the four operations mean: a page is in an area of some type and permissions afterwards if and only if it was and was not cut off or removed with its area, or was inserted or appended; the areas stay disjoint. |
| `KernelMemory.Kernel.NewSpace` | os/src/mm/memory_set.rs:50-55 | Creating a space keeps conservation and every other space's mappings; it takes one frame and fails exactly when none is free. |
| `KernelMemory.Kernel.ForkSpace` | os/src/mm/memory_set.rs:230-248 | Forking as a step keeps conservation and mappings for all spaces and yields the copy, which has exactly its areas and the trampoline mapped. |
| `KernelMemory.Kernel.Change` | os/src/mm/memory_set.rs:61-295 | Inserting, removing, appending to or shrinking an area keeps conservation and all other spaces' mappings, and changes the list of areas and the mapped pages accordingly; removing and shrinking always succeed, and three free frames per page to be mapped suffice for the others. |
| `KernelMemory.Kernel.Discard` | os/src/mm/frame_allocator.rs:34-38 | Dropping a space gives back exactly its frames and writes no memory. |
| `KernelMemory.DropSpace` | os/src/mm/frame_allocator.rs:34-38 | The trackers of tables and areas return their frames one by one without meeting a panic. |
| `MemorySets.MemorySet.Push` | os/src/mm/memory_set.rs:90-96 | The whole range of a new area becomes mapped, a Framed one to cleared frames of its own, an Identical one to the frames of the same numbers, with exactly its permissions; every other mapping, area and page stays; three free frames per page suffice. |
| `MemorySets.IdenticalPages` | os/src/mm/memory_set.rs:331-334 | A page of an Identical area leads to the frame of the same number, with exactly the area's permissions. |
| `MemorySets.MemorySet.InsertFramedArea` | os/src/mm/memory_set.rs:61-71 | Every address of the byte range then translates to a cleared page of its own with the given permissions; a page that does not meet the range is mapped as before. |
| `MemorySets.AreaMeets` | os/src/mm/memory_set.rs:306-320 | The pages of an area made from two addresses are exactly those that meet the byte range. |
| `MemorySets.MemorySet.RemoveArea` | os/src/mm/memory_set.rs:73-86 | The first area with that start disappears with its mappings and frames; nothing else changes; without one nothing happens. |
| `MemorySets.MemorySet.AppendTo` | os/src/mm/memory_set.rs:284-295 | The area is extended with newly mapped pages and keeps the frames it had. |
| `MemorySets.MemorySet.ShrinkTo` | os/src/mm/memory_set.rs:269-280 | The area keeps exactly the pages below the new end. |
| `MemorySets.MapOne` | os/src/mm/memory_set.rs:329-343 | One more page, for a Framed area on a cleared frame of its own; area map and table stay in agreement. |
| `MemorySets.UnmapOne` | os/src/mm/memory_set.rs:344-349 | One page fewer; its frame goes back; area map and table stay in agreement. |
| `MemorySets.MapRange` | os/src/mm/memory_set.rs:350-373 | The loops of `map` and `append_to` over any range of unmapped pages. |
| `MemorySets.UnmapRange` | os/src/mm/memory_set.rs:355-366 | The loops of `unmap` and `shrink_to` over any range of an area. |
| `MemorySets.Bystander` | os/src/mm/memory_set.rs:41-96 | An address space that shares no frame with the one operated on keeps its invariant, mappings and contents. |
| `UserBuffers.TranslatedByteBuffer` | os/src/mm/page_table.rs:160-180 | Terminates with non-empty slices that together are exactly the physical bytes of the reached part of the virtual range, in order, for every range on which the loop ends and takes no empty slice, also across multiples of 2^39; only the reached pages need to be mapped. |
| `UserBuffers.CompleteIff` | os/src/mm/page_table.rs:160-180 | The reached part is the whole range if and only if the range is empty, or contains no multiple of 2^39 behind its first byte and lies in the top 2^39 addresses, ends by 2^38 in its 39 bits, or fits one page. |
| `UserBuffers.Iterate` | os/src/mm/page_table.rs:241-276 | Iterating over the buffer yields, in order and exactly once, the physical byte of each address of the reached part. |
| `UserBuffers.UserBufferIterator.Next` | os/src/mm/page_table.rs:260-276 | Yields the next byte of what remains, and nothing exactly at the end. |
| `UserBuffers.Len` | os/src/mm/page_table.rs:232-238 | The number of bytes the buffer iterates over. |
| `UserBuffers.NeverEnds` | os/src/mm/page_table.rs:165-178 | On a non-empty range that ends at or above 2^39 with bit 38 of its end clear the first slice panics, or the loop goes on for ever: after any number of iterations it has not reached the end and no slice has panicked. |
| `UserBuffers.PanicIff` | os/src/mm/page_table.rs:172-176 | Taking the slice panics if and only if the end, in 39 bits, is below the start and behind the front of its page by less than the start is, but not at the front. |
| `UserBuffers.OneSlice` | os/src/mm/page_table.rs:165-178 | The ranges on which the loop ends but which are not translated: exactly when the end, in 39 bits, is not behind the start and no further into its page; these contain a multiple of 2^39, and their one slice is empty or panics. |
| `Pipes.PipeSystem.Run` | os/src/fs/pipe.rs:119-178 | For every interleaving of readers, writers and the close, the calls and the bytes in the ring are those of the same schedule on a plain queue of at most 32 bytes; bytes delivered followed by the ring contents are the bytes accepted, each call got and gave its own bytes in order, and reading an empty or writing a full ring never happens. |
| `Pipes.TurnsDeliver` | os/src/fs/pipe.rs:119-178 | When a writer of n bytes and a reader that wants n take turns, both have returned after (n + 31) / 32 rounds and the reader has exactly the writer's bytes, whatever other calls are in progress. |
| `Pipes.Begun` | os/src/fs/pipe.rs:119-155 | Two new calls on an empty open pipe are in the state from which taking turns delivers everything. |
| `Pipes.EndOfFile` | os/src/fs/pipe.rs:128-133 | Once the write ends are closed a reader returns within two iterations, with all it wants or all there is. |
| `Pipes.PipeSystem.Perform` | os/src/fs/pipe.rs:119-178 | One start, loop iteration or close does what it does on the plain queue. |
| `Pipes.PipeSystem.Finished` | os/src/fs/pipe.rs:119-178 | A read is short only when the write ends are closed and everything accepted has been delivered; a finished write handed over its whole buffer; at most 32 bytes are in flight. |
| `Pipes.PipeSystem.ReadStep` | os/src/fs/pipe.rs:125-148 | One loop iteration takes as many bytes as the ring holds and the buffer wants, and returns exactly when the buffer is full or the ring is empty and closed. |
| `Pipes.PipeSystem.WriteStep` | os/src/fs/pipe.rs:157-176 | One loop iteration hands over as many bytes as the ring has room for, and returns exactly when the buffer is used up. |
| `Pipes.PipeSystem.Drain` | os/src/fs/pipe.rs:135-147 | The inner loop of `read`: it takes exactly the oldest bytes that are wanted. |
| `Pipes.PipeSystem.Fill` | os/src/fs/pipe.rs:164-175 | The inner loop of `write`: it hands over exactly the next bytes that fit. |
| `Pipes.PipeRingBuffer.WriteByte` | os/src/fs/pipe.rs:64-71 | Appends one byte to the ring contents. |
| `Pipes.PipeRingBuffer.ReadByte` | os/src/fs/pipe.rs:72-80 | Takes the oldest byte from the ring contents. |
| `Pipes.PipeRingBuffer.AvailableRead` | os/src/fs/pipe.rs:81-89 | The number of bytes in the ring. |
| `Deadlock.Detect` | os/src/syscall/sync.rs:268-310 | Terminates, and reports a deadlock if and only if no order of all threads lets each thread's need fit into what is available plus the allocations of the threads before it; padding rows with zeros changes no entry. |
| `Deadlock.StuckIsFinal` | os/src/syscall/sync.rs:273-303 | Once no unfinished thread fits, no order whatever finishes one of them. |
| `Deadlock.SameThreadsFinish` | os/src/syscall/sync.rs:273-303 | Any two exhausted scans finish the same set of threads, so the scan order does not matter. |
| `Deadlock.Pass` | os/src/syscall/sync.rs:274-302 | One scan keeps the books right and finds a thread exactly when one fits. |
| `Deadlock.Covered` | os/src/syscall/sync.rs:276-285 | Whether a thread's need fits, missing entries counting as zero. |
| `Deadlock.GiveBack` | os/src/syscall/sync.rs:288-295 | Adds a thread's allocation to what is available. |
| `Sync.RunSemaphore` | os/src/sync/semaphore.rs:33-54 | For every history, downs complete in the order issued, exactly min(downs, initial + ups) of them, the rest wait in order, and the queue length is max(0, -count). |
| `Sync.RunMonitor` | os/src/sync/condvar.rs:31-47 | For every history on a mutex and a condition variable: the panic comes exactly at a release not covered by a lock; locks are granted in the order issued, min(locks, releases + 1) of them; an unlocked mutex has no waiters; if every release comes from a thread that holds the mutex at that point, there is exactly one holder while it is locked and none otherwise; condition waiters are woken in order and all others are still queued. |
| `Sync.MutualExclusion` | os/src/sync/mutex.rs:82-104 | The threads granted the mutex less those that released it are one while more locks than releases were issued, and none otherwise, in every history in which only holders release. |
| `Sync.NoLostWakeup` | os/src/sync/condvar.rs:31-47 | Whoever has waited is woken once as many signals have followed as threads were queued, whatever happens in between. |
| `Sync.Semaphore.Up` | os/src/sync/semaphore.rs:33-42 | Wakes the first waiter exactly when there is one. |
| `Sync.Semaphore.Down` | os/src/sync/semaphore.rs:45-53 | Queues the caller exactly when no unit is left. |
| `Sync.MutexBlocking.Lock` | os/src/sync/mutex.rs:82-92 | Takes the mutex or queues the caller. |
| `Sync.MutexBlocking.Unlock` | os/src/sync/mutex.rs:95-104 | Hands the mutex to the first waiter, or unlocks it when there is none; panics exactly when it is not locked. |
| `Sync.Condvar.Wait` | os/src/sync/condvar.rs:39-44 | Releases the mutex and queues the caller in one atomic section. |
| `Sync.Condvar.Signal` | os/src/sync/condvar.rs:31-36 | Wakes the first waiter exactly when there is one. |
| `Sync.Monitor.Step` | os/src/sync/mutex.rs:82-104 | One call on the pair keeps the order of grants and wake-ups. |
| `Scheduler.TaskSystem.ExitThenRun` | os/src/task/mod.rs:74-168 | Once the main thread of a process has exited, no thread of that process is dispatched in any continuation. |
| `Scheduler.TaskSystem.Run` | os/src/task/processor.rs:53-75 | For every run of kernel steps: the states in between follow from each other by the steps made; the placement invariant holds at the end; every semaphore's count is its old count plus ups minus downs and it has max(0, -count) waiters; a mutex is locked if and only if more locks than releases were made, and has no waiters when not; a sleeper is in the timers with its expiry until a tick at or after that or the end of its process; processes dead at the start are not dispatched; and the thread at ready position k is dispatched within k + 1 dispatches unless its process dies. |
| `TaskLaws.SemaphoreLaw` | os/src/sync/semaphore.rs:33-53 | In every history the count of a semaphore is its count at the start plus the ups minus the downs called on it. |
| `TaskLaws.MutexLaw` | os/src/sync/mutex.rs:82-104 | In every history the threads that hold or wait for a mutex are as many as at the start, plus the lock calls, minus the releases, condition waits included; it is locked if and only if that is positive. |
| `TaskLaws.QueueLaw` | os/src/sync/condvar.rs:31-47 | In every history each wait queue holds those who waited at the start and those who came since, in order, without as many from the front as were served. |
| `TaskLaws.ServedInTurn` | os/src/task/manager.rs:72-78 | A call that serves a queue for the k-th time puts the k-th who came to it at the back of the ready queue. |
| `TaskLaws.SleepLaw` | os/src/timer.rs:75-117 | In every history a sleeper stays in the timers, with its expiry, until a tick at or after that time or the end of its process, and such a tick makes it ready. |
| `TaskLaws.TimerStep` | os/src/timer.rs:75-117 | After a step a timer is set if and only if the step set it, or it was set and neither expired in this tick nor belongs to the process that this step ends. |
| `TaskLaws.ThreadLaw` | os/src/task/mod.rs:74-100 | In every history a thread keeps its process and its number, and its exit code is that of its exit. |
| `TaskLaws.ThreadStep` | os/src/syscall/thread.rs:10-69 | A thread exists after a step if and only if it did or is started by it, then ready and under its number. |
| `TaskLaws.ProcessLaw` | os/src/task/mod.rs:100-168 | In every history a process is dead if and only if it was or its main thread has exited. |
| `TaskLaws.RunNextLaw` | os/src/task/processor.rs:53-75 | The free processor goes to the front of the ready queue. |
| `TaskLaws.GiveUpLaw` | os/src/task/mod.rs:43-69 | A yielding thread goes to the back of the ready queue, an interrupted one behind those whose timers have expired, a sleeping one not at all. |
| `TaskLaws.ExitLaw` | os/src/task/mod.rs:74-168 | An exiting main thread takes the ready threads of its own process along and no others; any other thread leaves the ready queue as it is. |
| `TaskLaws.RelockLaw` | os/src/sync/condvar.rs:39-47 | A condition wait leaves the processor and remembers its mutex. |
| `TaskLaws.ResumeLaw` | os/src/sync/condvar.rs:46 | A resumed waiter has asked for its mutex and no longer remembers it. |
| `TaskLaws.CreateLaw` | os/src/syscall/sync.rs:27-204 | A new semaphore has the count asked for, a new mutex is not locked, and nobody waits for either. |
| `TaskLaws.JoinLaw` | os/src/syscall/thread.rs:97-135 | The three results of `sys_waittid`, and that only the slot of an exited thread is emptied. |
| `Scheduler.TaskSystem.Partition` | os/src/task/mod.rs:43-69 | A live thread of a live process is in exactly one of processor, ready queue, timers and one wait queue, exactly once, and its status agrees; an exited thread is in none. |
| `Scheduler.TaskSystem.Exit` | os/src/task/mod.rs:74-168 | A main thread takes its process down: nothing of it is running, ready or asleep afterwards, and the ready threads and the timers of all other processes stay, in order and with their expiries; any other thread leaves alone. |
| `Scheduler.TaskSystem.RemoveInactive` | os/src/task/mod.rs:202-206 | Exactly the listed threads leave ready queue and timers; the others keep their order and their expiries. |
| `TaskSteps.KeepCount` | os/src/task/mod.rs:202-206 | The threads that stay in the ready queue are those not removed, as often as before. |
| `TaskSteps.KeepPrefix` | os/src/task/mod.rs:202-206 | They stay in order: what is kept of a prefix is a prefix of what is kept. |
| `Scheduler.TaskSystem.Perform` | os/src/trap/mod.rs:62-114 | Any single step has exactly its effect on processor, ready queue, timers, wait queues, counts, locks, threads and processes, keeps the invariants and the forward relation, and gives the result of `sys_waittid`; a step that would panic is not taken. |
| `Scheduler.TaskSystem.Dispatch` | os/src/task/processor.rs:53-75 | The front of the ready queue gets the processor; with an empty queue nothing happens. |
| `Scheduler.TaskSystem.Suspend` | os/src/task/mod.rs:43-59 | The running thread goes to the back of the ready queue. |
| `Scheduler.TaskSystem.BlockOn` | os/src/task/mod.rs:62-69 | The running thread goes to the back of one wait queue of its own process. |
| `Scheduler.TaskSystem.Sleep` | os/src/syscall/sync.rs:8-25 | The running thread goes to the timers with its expiry. |
| `Scheduler.TaskSystem.CheckTimer` | os/src/timer.rs:102-117 | Exactly the expired timers fire, in order of expiry, and their threads are appended to the ready queue in that order. |
| `Scheduler.TaskSystem.Tick` | os/src/trap/mod.rs:95-99 | Expired sleepers become ready first, then the running thread. |
| `Scheduler.TaskSystem.RemoveTimer` | os/src/timer.rs:86-99 | Draining and rebuilding the heap removes the thread's timers and keeps all others, with their expiries. |
| `Scheduler.TaskSystem.Add` | os/src/task/manager.rs:29-31 | Appends to the ready queue. |
| `Scheduler.TaskSystem.Fetch` | os/src/task/manager.rs:33-35 | Takes the front of the ready queue. |
| `Scheduler.TaskSystem.Remove` | os/src/task/manager.rs:36-45 | The search loop removes the one occurrence, wherever it is, and keeps the rest in order. |
| `Scheduler.TaskSystem.Wakeup` | os/src/task/manager.rs:72-78 | The thread becomes ready, at the back of the queue. |
| `Scheduler.TaskSystem.TakeCurrent` | os/src/task/processor.rs:37-39 | Empties the processor slot. |
| `Scheduler.TaskSystem.Lock` | os/src/sync/mutex.rs:82-92 | The mutex call as a step of the scheduler. |
| `Scheduler.TaskSystem.Unlock` | os/src/sync/mutex.rs:95-104 | The mutex call as a step: the first waiter of the caller's own process becomes ready. |
| `Scheduler.TaskSystem.Up` | os/src/sync/semaphore.rs:33-42 | The semaphore call as a step: with a negative count there are that many waiters and the first becomes ready; otherwise nobody moves. |
| `Scheduler.TaskSystem.Down` | os/src/sync/semaphore.rs:45-53 | The semaphore call as a step. |
| `Scheduler.TaskSystem.Signal` | os/src/sync/condvar.rs:31-36 | The signal as a step. |
| `Scheduler.TaskSystem.CondWait` | os/src/sync/condvar.rs:39-45 | By the time any other thread can run, the mutex is released or handed over to its first waiter, who is ready, the caller is queued and remembers which mutex it must take again. |
| `Scheduler.TaskSystem.Relock` | os/src/sync/condvar.rs:46-47 | A woken waiter takes the mutex again before it returns, or queues for it. |
| `Scheduler.TaskSystem.ThreadCreate` | os/src/syscall/thread.rs:10-69 | A new thread, listed by its process under its number and ready at the back of the queue. |
| `Scheduler.TaskSystem.WaitTid` | os/src/syscall/thread.rs:97-135 | The three results of the call, and that only an exited thread is unlisted. |
| `Scheduler.TaskSystem.NewProcess` | os/src/task/process.rs:107-182 | A process with one main thread, listed and ready. |

## Left out

- Disk full, no free inode and files beyond the largest size are preconditions of `Vfs.WriteAt`, `Directory.FileSystem.Create` and of legal histories, because the source unwraps and panics there.
- Names longer than 27 bytes, names with a NUL and names that are not UTF-8: `create` panics or later lookups do; names are byte strings here.
- BlockCache.BlockCacheManager.GetBlockCache: one device only; the source's cache key is the block number without the device.
- Vfs.WriteAt: excludes the empty writes of `Vfs.EmptyWriteExact` and `Vfs.EmptyWriteBeyond`; on a disk of more than 998244353 blocks, where the magic number is a block number, some of these would do no harm.
- Concurrent use of one volume: the source takes one lock per call, so calls are sequential here.
- Deadlock.Detect: natural numbers without wrap-around, over the matrices it is given; that they mirror real holdings is not claimed, since a rejected request keeps its need, a woken waiter is not credited and `fork` copies the matrices.
- The deadlock check of `sys_mutex_lock`: one column and one pass over a counter that can go below zero, with no specification to prove.
- `MutexSpin`: it only retries after yielding.
- Scheduler.TaskSystem.ThreadCreate: the thread number is any number no live thread of the process has; the recycling allocators for thread numbers, process numbers and kernel stacks are not modelled.
- Scheduler.TaskSystem.Exit: reparenting of children, file descriptors, exit codes of processes and the machine shutdown of the idle process are not modelled.
- Scheduler.TaskSystem.CheckTimer: the heap is a list with an arbitrary choice among equal expiries; the clock is a parameter.
- Signals, `exec`, ELF loading, `copy_data`, `recycle_data_pages`, `translated_str`, `translated_ref`, trap entry, context switching and drivers.
- MemorySets.MemorySet.Push: without initial data, and for ranges of pages none of which is mapped, because mapping a mapped page panics.
- KernelRuns.Run: the budget is a bound of three frames per page, not the exact number of tables; a run that stops for want of frames says nothing of the state it leaves, because the source panics there.
- KernelMemory.Kernel.Change: the inserted or appended range must be unmapped, for the same reason.
- UserBuffers.TranslatedByteBuffer: excludes the ranges of `UserBuffers.NeverEnds` and `UserBuffers.OneSlice`, ranges with `ptr + len` at or above 2^64, where the addition overflows, and unmapped reached pages, where the source panics.
- UserBuffers.Iterate: excludes the same ranges.
- UserBuffers.NeverEnds: speaks of addresses only, with `ptr + len` below 2^64; an unmapped page makes the source panic on the way.
- Frames hold 512 words in the page-table model; byte contents appear only as physical addresses in user buffers.
- Reference counts, `RefCell` borrows and raw pointers are modelled by handle counts, atomic sections and typed memory.
