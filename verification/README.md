# Verified model of a Pintos kernel

This project models the hard parts of a Pintos kernel in Dafny and proves what they promise: the
file system down to its write-back cache, the kernel's lists and hash tables, the page and block
allocators, paging to swap, threads and their synchronisation, 64-bit division, and heapsort.

The model has the form of the code. Objects that the kernel updates in place are classes whose
methods have the kernel's loops and branches; each method is proved against a function of the old
state. Concurrent protocols are transition systems, with theorems over every run and any number of
threads. `dafny verify dfyconfig.toml` checks everything.

## How it is put together

**Storage**, in layers, each a refinement of the one below.

- `Disk`, `BufferCache`: sectors, and the cache of at most 64 of them with clock replacement,
  write-back and read-ahead. Clients see the *view*: the cached buffer if there is one, else the disk
  sector.
- `Bits`, `Words`, `Bitmaps`, `FreeMaps`: bit masks over 32-bit words, bitmaps, and the map of used
  sectors with the file that mirrors it.
- `FileLayout`, `Inodes`: on-disk headers, sector tables, which inode owns which sector, and files as
  flat byte sequences. `Files(Whole())` is the map from inode to content; every operation is stated as
  an update of that map. Bytes past a file's length are zero in every state that satisfies `Valid`.
- `MapView`, `MapFile`: the free map's own file, inode 0 of the file system it maps. Every sector taken
  or released anywhere rewrites it, so operations are stated as `WithMap(Files(old(Whole()))[h := ..])`:
  file `h` and the map file change, and no other. `Valid` has the map file decode to the map
  (`MapFile.MapInStep`). `State()` is the file system with the sectors of that file blanked out; the
  proofs about one inode are on it, and `MapView.WholeFiles` carries them to `Whole()`.
- `DirLayout`, `Directories`: directory files as finite maps from names to inode sectors.
- `CacheProtocol`: loader, readers and writers of one cache entry, interleaved byte by byte;
  `CacheHistory`: what whole runs of them leave in the buffer and bring to the readers, told only from the
  calls that are made and that return.

**Containers.** `MergeRuns` has natural merge sort on sequences: runs, merge, pass, stability,
progress. `KernelList` does the same by relinking a doubly linked list in place; `Slices` has what both
need about sequences. `HashTables` is the resizing table with its iterator.

**Memory.** `Palloc` (page pools), `Arenas` (the block allocator's invariant, on values), `Malloc`
(malloc, free and realloc, with the bytes in memory), `PageTables` and `Paging` (frames, second-chance
eviction, swap slots).

**Concurrency.** `Threads` is the transition system of thread states, the ready list and semaphores;
`Locks` builds locks on it, with the gaps between the down and the setting of the holder, and
`Conditions` condition variables on both, with one private semaphore for each waiter. `Queues` puts
the ready list and the waiter lists on the links of `KernelList`, with one list element per thread;
`Kernel` is the code of the pieces that run with interrupts off, over those links, each proved to be its
step. That no thread is on two lists is what keeps the links consistent there.

**Arithmetic and sorting.** `Arithmetic`; `Stdlib` sorts and searches elements of any size in an array of
bytes. `Options` is the optional value, `Tids` the thread identifier.

## What turned out not to hold

Where the code falls short of its promise, the model keeps the code and proves the exact condition.

- `inode_write_at` stores all of a permitted, non-empty write unless the old length plus the size is
  the in-sector offset (`Inodes.Stuck`); then it stores nothing and has only grown the file with zeros.
  `Inodes.StuckExample` is ten bytes at offset 20 of a file of ten bytes. The comment above the
  function says that growth is not implemented; the code does grow files, and the model follows it.
- `malloc` returns a block smaller than asked for exactly when the size is one of the eleven largest
  32-bit numbers, for which adding the header wraps (`Malloc.Heap.Alloc`, `Malloc.WrappedRequest`).
- `umod64` is the remainder for every dividend exactly if the divisor is at most 2^32, and `smod64`
  exactly if its magnitude is at most 2^31; `sdiv64` is exact but for -2^63 / -1.
- `realloc` copies no more than the new block holds exactly if the new size does not wrap or the old block
  is no larger than what one page holds; then it keeps its promise, and otherwise the copy runs past the
  new block (`Malloc.Heap.Realloc`). `Malloc.WrappedCopy` is the largest size for a block of two pages.
- `allocate_frame` on a resident page returns null, and leaves the page alone, exactly if there is a free
  frame or another page is the one to be evicted. Otherwise it evicts that very page and maps it to a frame
  of zeros, and the page is both resident and in swap (`Paging.VirtualMemory.AllocateFrame`, with a
  concrete state in `Paging.ResidentLost`).

## Model

| member | source | states |
|---|---|---|
| `BufferCache.Cache.SelectForEvict` | filesys/cache.c:119-144 | terminates; the victim left at the front is the first unaccessed entry in list order, or the old front if all were accessed; clients see no change |
| `BufferCache.Cache.Evict` | filesys/cache.c:34-42 | a dirty victim, and only that, is written to disk; the cache has one entry less, the view is unchanged |
| `BufferCache.Cache.Load` | filesys/cache.c:34-58 | a miss appends a clean, accessed entry, after an eviction exactly if the cache is full, without changing the view |
| `BufferCache.Cache.Check` | filesys/cache.c:16-66 | no duplicates, at most 64 entries, clean entries equal the disk, view unchanged; a hit only marks its entry accessed; after a miss with read-ahead the next sector is cached too, and the returned entry still is |
| `BufferCache.Cache.Write` | filesys/cache.c:69-84 | changes exactly the given bytes of its sector in the view; a miss caches the next sector too |
| `BufferCache.Cache.Read` | filesys/inode.c:389-426 | a reader gets the bytes of the view |
| `BufferCache.Cache.Flush` | filesys/cache.c:97-117 | afterwards the disk is the view, no entry is dirty, the view is unchanged |
| `BufferCache.RotatedView` | filesys/cache.c:126-140 | moving the clock hand changes neither the invariant nor the view |
| `BufferCache.RotatedNext` | filesys/cache.c:126-140 | a turn of the loop moves the hand past one entry; after a full turn the front counts as not accessed |
| `BufferCache.EvictedView` | filesys/cache.c:37-41 | dropping the front entry, written back if it is dirty, keeps the invariant and the view |
| `BufferCache.StoreView` | filesys/cache.c:79-80 | a store to an entry's buffer changes those bytes of its sector in the view, and no others |
| `BufferCache.EvictKeeps` | filesys/cache.c:34-61 | eviction spares an accessed entry at the back of two or more, so read-ahead cannot evict the entry just loaded |
| `BufferCache.FlagsOnly` | filesys/cache.c:26-31 | accessed flags do not affect what clients see |
| `BufferCache.AppendClean` | filesys/cache.c:43-57 | a clean new entry keeps the invariant, the view and all cached sectors |
| `BufferCache.WriteBackView` | filesys/cache.c:104-113 | writing one dirty entry back keeps the view |
| `Bitmaps.Bitmap.Test` | lib/kernel/bitmap.c:198-204 | the bit with that number |
| `Bitmaps.Bitmap.Set` | lib/kernel/bitmap.c:145-184 | changes that bit and no other |
| `Bitmaps.Bitmap.SetMultiple` | lib/kernel/bitmap.c:218-229 | changes exactly that range |
| `Bitmaps.Bitmap.Contains` | lib/kernel/bitmap.c:251-264 | whether some bit of the range has the value |
| `Bitmaps.Bitmap.Scan` | lib/kernel/bitmap.c:296-311 | the first group of that many bits with the value, or none if there is none |
| `Bitmaps.Bitmap.ScanAndFlip` | lib/kernel/bitmap.c:320-327 | the same group, flipped, and nothing else changed |
| `Bitmaps.Bitmap.Read` | lib/kernel/bitmap.c:341-353 | takes over the bits of the file and clears those past the end; succeeds exactly if enough bytes were read |
| `Bitmaps.MarkWord` | lib/kernel/bitmap.c:157-167 | or with the mask turns on one bit of a word |
| `Bitmaps.ResetWord` | lib/kernel/bitmap.c:170-180 | and with the complement of the mask turns off one bit of a word |
| `Bitmaps.MaskedLast` | lib/kernel/bitmap.c:65-71 | the last mask keeps the bitmap's own bits and clears the rest |
| `Bitmaps.ImageDecodes` | lib/kernel/bitmap.c:356-361 | the bytes of a bitmap decode to its bits |
| `Words.RoundTrip` | lib/kernel/bitmap.c:341-361 | little-endian words survive encoding and decoding |
| `FreeMaps.FreeMap.constructor` | filesys/free-map.c:12-21 | only the free map's and the root directory's sectors are used |
| `FreeMaps.FreeMap.Allocate` | filesys/free-map.c:26-41 | the first run of free sectors is taken and the open file decodes to the map; or, exactly if there is none or the file cannot be written, the map is as before |
| `FreeMaps.FreeMap.Release` | filesys/free-map.c:44-50 | exactly these sectors become free, and the file decodes to the map |
| `FreeMaps.FreeMap.Open` | filesys/free-map.c:53-61 | the map read back has the file's bits, with bits past the end cleared |
| `FreeMaps.FreeMap.Create` | filesys/free-map.c:72-85 | succeeds exactly if there are enough free sectors and the write is complete; then the bytes decode to the map; used sectors stay used |
| `FreeMaps.FullWriteDecodes` | filesys/free-map.c:31-38 | a full write of the map over any file decodes to the map |
| `FreeMaps.Reopen` | filesys/free-map.c:53-69 | closing and opening the map file gives back the same used bit for every sector |
| `Inodes.FileSys.WriteMap` | lib/kernel/bitmap.c:356-361 | written by the loop of inode_write_at, the map is always stored whole, in the sectors of the map file and no others |
| `Inodes.FileSys.AllocateSector` | filesys/free-map.c:26-41 | a free sector is taken; the map file changes, holds the map, and is the only file that does |
| `MapFile.Release` | filesys/free-map.c:44-50 | the sector is free; the map file changes, holds the map, and is the only file that does |
| `MapFile.Create` | filesys/free-map.c:72-85 | the map file becomes an inode with sectors of its own, no other file changes, and it holds the map from then on |
| `MapFile.Open` | filesys/free-map.c:53-61 | reading the map file through inode_read_at gives back the same used bit for every sector |
| `MapFile.Close` | filesys/free-map.c:64-68 | the map file stays as it is, and becomes a file like any other |
| `MapFile.Reopen` | filesys/free-map.c:53-68 | after any operations, closing the map file and reading it again gives back the same map |
| `MapFile.MapInStep` | filesys/free-map.c:26-50 | in every valid state, so after every operation that grows, creates, writes, closes or removes a file, the content of the map file decodes to the map in memory |
| `MapView.WholeFiles` | filesys/free-map.c:26-50 | the file system is in order with the map file in its sectors, which then has the map as its content; every other file has the content that it has with those sectors blank |
| `MapView.HoldsMore` | filesys/inode.c:455-507 | a chunk of the map goes to its place in the map file, and the rest of the disk stays |
| `MapFile.MaskKeeps` | filesys/free-map.c:80-84 | the map file can be set apart in any file system that is in order, without disturbing owners and headers |
| `FileLayout.HeaderRoundTrip` | filesys/inode.h:14-30 | the on-disk header, 512 bytes, decodes to what was encoded |
| `FileLayout.HeaderFields` | filesys/inode.h:14-30 | every field of struct inode_disk is at its place in the sector, low byte first |
| `FileLayout.FlatPatch` | filesys/inode.c:443-511 | a write inside one data sector overwrites the same bytes of the flat content |
| `FileLayout.FlatAppend` | filesys/inode.c:103-187 | a zeroed sector at the end of the table appends zeros to the flat content |
| `FileLayout.FrameCore` | filesys/inode.c:103-187 | when only one inode changed and is in order, the whole file system is |
| `FileLayout.FrameFiles` | filesys/inode.c:103-187 | when only one inode changed, every other file has its old content |
| `FileLayout.TakeSector` | filesys/inode.c:126-148 | a sector that nobody owned becomes one inode's data sector without disturbing any other |
| `Inodes.FileSys.NewBlock` | filesys/inode.c:126-148 | the sector taken was free, is marked used, is zeroed, and belongs to this inode alone; of all files only that of the map changes, and it holds the new map |
| `Inodes.FileSys.FillTable` | filesys/inode.c:118-150 | the table keeps its sectors and gets as many new ones as are needed |
| `Inodes.FileSys.Grow` | filesys/inode.c:103-187 | the file is its old content padded with zeros, across the switch from the direct to the indirect table; the map file holds the new map, and all other files, owners and tables are unchanged; growing to less does nothing |
| `Inodes.FileSys.GrowOpen` | filesys/inode.c:103-187 | the same for an open inode, whose header in memory and on disk stay equal |
| `Inodes.FileSys.Create` | filesys/inode.c:195-224 | the new file is zeros of the given length; no sector is shared; the map file holds the new map, and all other files are unchanged |
| `Inodes.FileSys.Open` | filesys/inode.c:229-274 | one in-memory inode per sector, with a count of openers and the header that is on disk |
| `Inodes.FileSys.Reopen` | filesys/inode.c:277-283 | one opener more |
| `Inodes.FileSys.Remove` | filesys/inode.c:355-360 | marked removed, and nothing else |
| `Inodes.FileSys.Close` | filesys/inode.c:295-351 | only the last close of a removed inode frees anything, and it frees exactly the inode's own sectors; the map file then holds the new map, and all other files are unchanged |
| `Inodes.FileSys.ReleaseAll` | filesys/inode.c:311-347 | every sector released is in use when its turn comes, so no assertion fails |
| `Inodes.FileSys.CreateAndReclaim` | filesys/inode.c:195-360 | creating an inode, growing and writing it any number of times, removing and closing it returns the free map exactly to its earlier value and leaves every file but that of the map and every open inode alone |
| `Inodes.FileSys.ByteToSector` | filesys/inode.c:54-90 | the sector that holds byte pos - 1, after growing the file to pos |
| `Inodes.FileSys.ReadAt` | filesys/inode.c:365-436 | exactly min(size, max(0, length - offset)) bytes of the flat content, and nothing changes |
| `Inodes.FileSys.WriteOnce` | filesys/inode.c:455-507 | one pass writes its chunk, and an empty one exactly if the write is stuck |
| `Inodes.FileSys.WriteAt` | filesys/inode.c:443-511 | stores all bytes, changes no other, fills a gap with zeros and sets the length to max(old, offset + size), if and only if the write is empty, or permitted and not stuck; the map file holds the map of the sectors then in use, and all other files are unchanged |
| `Inodes.ChunkOf` | filesys/inode.c:461-494 | the chunk is within the sector and empty exactly if the write is stuck |
| `Inodes.NotStuck` | filesys/inode.c:464-476 | a write at or before the end is never stuck |
| `Inodes.ReachCovers` | filesys/inode.c:455-507 | a pass grows the file no further than the write needs |
| `Inodes.StuckExample` | filesys/inode.c:464-494 | a concrete write that stores nothing |
| `Inodes.ReadChunk` | filesys/inode.c:376-418 | those bytes of the sector are those bytes of the file |
| `Inodes.GrowResult` | filesys/inode.c:103-187 | what growth does to owners, tables, headers and files |
| `Inodes.Reclaimed` | filesys/inode.c:311-347 | taking an inode away with exactly its sectors keeps the file system in order |
| `Inodes.GivenBack` | filesys/inode.c:295-351 | sectors gained since and given back leave the bitmap as it was |
| `DirLayout.FillEntryReads` | filesys/directory.c:197-203 | an entry that was filled in is in use and reads back its name and sector |
| `DirLayout.FillEntryBytes` | filesys/directory.c:197-203 | byte for byte what dir_add writes into a slot, and that all other bytes stay |
| `DirLayout.AddAt` | filesys/directory.c:181-203 | filling a free slot adds one name to the map and keeps names unique |
| `DirLayout.AddBeyond` | filesys/directory.c:181-203 | a full directory gets an unused slot and the new entry; the map gains one name |
| `DirLayout.RemoveAt` | filesys/directory.c:290-299 | clearing in_use takes one name out of the map |
| `DirLayout.VisibleNames` | filesys/directory.c:314-331 | the names reported are those of the map but "." and "..", once each |
| `DirLayout.OneSlotEach` | filesys/directory.c:243-255 | the slots in use are as many as the names of the directory |
| `Directories.Dir.Lookup` | filesys/directory.c:111-133 | finds a name exactly if it is in the map, in its first slot |
| `Directories.Dir.Add` | filesys/directory.c:162-209 | succeeds exactly for a name of 1 to 14 characters that is not in the map, if writing is permitted; then the map gains that name alone, also past the last slot; the directory and the map file are the only files that change, and no inode is opened or closed |
| `Directories.Dir.AddPastEnd` | filesys/directory.c:181-203 | the file grows by one entry and the new one goes behind it; every other lookup is unchanged |
| `Directories.Dir.ReadDir` | filesys/directory.c:314-331 | the name of the next visible slot, or none if there is none left |
| `Directories.Dir.List` | filesys/directory.c:314-331 | repeated calls give every name but "." and "..", each exactly once |
| `Directories.Dir.Remove` | filesys/directory.c:214-309 | succeeds exactly for a name in the map that is not a directory with three or more names, if writing is permitted; then the map loses that name alone, the file goes if nobody has it open and is marked removed otherwise, the map file holds the new map, and all other files and openers stay; on failure nothing changes |
| `Directories.BusyNames` | filesys/directory.c:243-255 | the count that dir_remove makes of a proper directory is the number of its names, "." and ".." among them |
| `CacheProtocol.StepKeeps` | filesys/cache.c:43-81 | every step of every thread keeps the invariant of the entry |
| `CacheProtocol.InvSafe` | filesys/cache.c:43-81 | the invariant gives the safety of readers, writers and loader |
| `CacheProtocol.AlwaysSafe` | filesys/inode.c:389-426 | in every interleaving: nobody uses the buffer before the load ends; no reader copies while a writer does; readers is the number of threads in the copy phase; while the lock is free a non-empty queue implies readers > 0 |
| `CacheProtocol.CopiesWhole` | filesys/cache.c:74-82 | a reader that has copied has what it asked for, a writer that has stored has stored all; see `CacheHistory.Linearizable` for whole calls |
| `CacheProtocol.KeepsSignal` | threads/synch.c:289-340 | while threads wait and no reader is left, someone is signalling |
| `CacheProtocol.BeginOk` | filesys/cache.c:43-56 | a new entry satisfies the invariant |
| `CacheHistory.Linearizable` | filesys/cache.c:69-84 | in every interleaving, the buffer is the loaded bytes with every write that has returned, in the order of returning, but for a part of at most one write in progress; every read that has returned got the bytes that the loaded entry held at one moment between its call and its return |
| `CacheHistory.ToldStep` | filesys/cache.c:69-84 | every step of every thread goes on with that |
| `CacheHistory.WriteReturns` | filesys/cache.c:76-81 | a write that waits for a free lock, at first or after a signal, returns if there is no reader, and has stored exactly its bytes |
| `CacheHistory.ReadReturns` | filesys/inode.c:389-426 | a read that waits for a free lock returns with exactly the bytes it asked for, and changes nothing |
| `MergeRuns.MergeSorted` | lib/kernel/list.c:387-404 | the merge of two sorted runs is sorted |
| `MergeRuns.MergeStable` | lib/kernel/list.c:387-404 | the merge keeps equivalent elements in order |
| `MergeRuns.PassStable` | lib/kernel/list.c:420-444 | a pass is a stable permutation |
| `MergeRuns.PassDescents` | lib/kernel/list.c:420-444 | a pass puts out half as many runs, rounded up, and its output has no more |
| `MergeRuns.PassProgress` | lib/kernel/list.c:412-448 | the number of runs strictly falls while there is more than one; a pass with one run has sorted |
| `MergeRuns.StableTwice` | lib/kernel/list.c:412-448 | stable permutations compose |
| `KernelList.List.Insert` | lib/kernel/list.c:168-177 | the element is linked in before the given one, all links and sentinels consistent |
| `KernelList.List.Remove` | lib/kernel/list.c:256-263 | the element is unlinked, all links consistent; its successor is returned |
| `KernelList.List.Splice` | lib/kernel/list.c:183-204 | the range is moved before the given element, within one list or from another; all links of both are consistent |
| `KernelList.List.FindEndOfRun` | lib/kernel/list.c:365-382 | the end of the maximal nondecreasing run |
| `KernelList.List.InplaceMerge` | lib/kernel/list.c:387-404 | the two runs are replaced by their stable merge |
| `KernelList.List.SortPass` | lib/kernel/list.c:420-444 | the elements are those of the pass on sequences, and so is the number of runs |
| `KernelList.List.Sort` | lib/kernel/list.c:412-448 | terminates; sorted, a stable permutation, with every link and both sentinels consistent, for any strict weak order |
| `KernelList.List.InsertOrdered` | lib/kernel/list.c:453-467 | stays sorted; the element goes behind its equals and before the first greater one |
| `KernelList.List.Unique` | lib/kernel/list.c:473-494 | keeps the first of adjacent equal elements and appends the others to the duplicates, in order, if there is such a list |
| `KernelList.UniqueSplits` | lib/kernel/list.c:469-494 | every element is kept or moved, exactly once |
| `KernelList.UniqueNeighbours` | lib/kernel/list.c:469-494 | no two neighbours kept are equal |
| `KernelList.UniqueCovers` | lib/kernel/list.c:469-494 | every element has an equivalent one that is kept |
| `KernelList.UniqueSorted` | lib/kernel/list.c:469-494 | of a sorted list exactly one element of each class is kept, in ascending order |
| `KernelList.List.Reverse` | lib/kernel/list.c:333-346 | the elements in reverse order, with every link and both sentinels consistent |
| `HashTables.PowersOf2` | lib/kernel/hash.c:329-342 | the test by bit twiddling tells exactly the powers of two |
| `HashTables.TurnOff` | lib/kernel/hash.c:329-342 | turning off the lowest one bit gets smaller and keeps the highest one |
| `HashTables.MaskIsMod` | lib/kernel/hash.c:305-310 | masking with the bucket count less one is the remainder |
| `HashTables.Index` | lib/kernel/hash.c:305-310 | the bucket index is the hash modulo the number of buckets |
| `HashTables.IdealBuckets` | lib/kernel/hash.c:364-373 | a power of two, at least four, within a factor of two of half the elements |
| `HashTables.CountBuckets` | lib/kernel/hash.c:364-373 | the loop computes that count |
| `HashTables.OnlyInBucket` | lib/kernel/hash.c:305-326 | an element equal to e is in e's bucket |
| `HashTables.HashTable.constructor` | lib/kernel/hash.c:24-43 | an empty table of four buckets |
| `HashTables.HashTable.Find` | lib/kernel/hash.c:131-135 | an equal element, or none exactly if there is none |
| `HashTables.HashTable.Insert` | lib/kernel/hash.c:98-110 | adds the element if no equal one is there, else returns that one; the bucket count is then the ideal one, unless memory is short |
| `HashTables.HashTable.Replace` | lib/kernel/hash.c:114-127 | the element is in, an equal one is out and returned; the bucket count is then the ideal one, unless memory is short |
| `HashTables.HashTable.Delete` | lib/kernel/hash.c:144-154 | no equal element is left; the one taken out, if any, is returned, and the bucket count is then the ideal one, unless memory is short |
| `HashTables.HashTable.Rehash` | lib/kernel/hash.c:351-413 | every element exactly once, in its own bucket; the bucket count is the ideal one, or as before when allocation fails |
| `HashTables.Cursor.Next` | lib/kernel/hash.c:218-235 | the next element in bucket order, or none exactly at the end |
| `HashTables.HashTable.Visit` | lib/kernel/hash.c:182-235 | the iteration visits each element exactly once, no two of them equal |
| `Palloc.Pool.constructor` | threads/palloc.c:149-166 | the bitmap fits in the pages set aside for it, and the pool is the rest |
| `Palloc.Pool.Get` | threads/palloc.c:66-97 | the first group of free pages, now used; none only if there is none |
| `Palloc.Pool.Free` | threads/palloc.c:113-138 | exactly these pages become free |
| `Palloc.PageAllocator.constructor` | threads/palloc.c:37-58 | the user pool gets half of free memory, or its limit, the kernel pool the rest, each less its bitmap; they share no page |
| `Palloc.PageAllocator.Free` | threads/palloc.c:113-138 | pages go back to the pool they came from |
| `Arenas.BlockToArena` | threads/malloc.c:266-294 | block_to_arena undoes arena_to_block, and its assertions hold |
| `Arenas.ArenaToBlock` | threads/malloc.c:266-294 | arena_to_block undoes block_to_arena; the block lies in its page behind the header |
| `Arenas.BlocksApart` | threads/malloc.c:284-294 | two blocks of an arena do not overlap |
| `Arenas.LiveApart` | threads/malloc.c:89-154 | blocks in use are pairwise disjoint |
| `Arenas.ClearOfHeaders` | threads/malloc.c:49-55 | blocks in use are clear of all arena headers |
| `Arenas.ClearOfFree` | threads/malloc.c:57-61 | blocks in use are clear of all free blocks |
| `Arenas.LargeEnough` | threads/malloc.c:87-154 | blocks in use are as large as asked, if the size does not wrap |
| `Arenas.HeldWhileLive` | threads/malloc.c:26-29 | a page is held for the allocator exactly while a block of its arena is in use |
| `Arenas.NewArenaKeeps` | threads/malloc.c:125-146 | a new arena keeps the invariant |
| `Arenas.TakeKeeps` | threads/malloc.c:148-153 | taking a block keeps it; the arena's free count equals its blocks on the free list |
| `Arenas.PutKeeps` | threads/malloc.c:227-242 | putting a block back keeps it, and the count never exceeds the blocks per arena |
| `Arenas.AllFree` | threads/malloc.c:241-251 | when the count reaches the blocks per arena, all of them are on the free list |
| `Arenas.DropKeeps` | threads/malloc.c:242-253 | giving back the arena keeps the invariant |
| `Arenas.NewBigKeeps` | threads/malloc.c:105-120 | so does a big block |
| `Arenas.DropBigKeeps` | threads/malloc.c:257-262 | and giving it back |
| `Malloc.PagesEnough` | threads/malloc.c:109-110 | the pages for a big request hold it exactly if adding the header does not wrap |
| `Malloc.PagesTight` | threads/malloc.c:109-110 | the pages for a big request that does not wrap are no more than it needs |
| `Malloc.WrappedRequest` | threads/malloc.c:109-110 | the largest request is given a single page |
| `Malloc.Heap.constructor` | threads/malloc.c:70-85 | seven descriptors of 16 to 1024 bytes, no arena |
| `Malloc.Heap.FindDesc` | threads/malloc.c:100-105 | the smallest descriptor that is large enough |
| `Malloc.ClassOf` | threads/malloc.c:100-105 | exactly one descriptor has the least power of two that is at least 16 and the size |
| `Malloc.Heap.Alloc` | threads/malloc.c:89-154 | up to 1024 bytes: a block of the least power of two that holds the request, off the front of that free list, or off a new page exactly if the list is empty; more: no page more than needed; as large as asked if and only if the size does not wrap; null only for size zero or when no such block and no pages are free; no byte of a block in use changes |
| `Malloc.Heap.Free` | threads/malloc.c:216-264 | the block is no longer in use, all others are, with the same bytes; an arena without a block in use is given back, and its assertion holds |
| `Malloc.Heap.Realloc` | threads/malloc.c:188-214 | the copy stays within the new block if and only if the new size does not wrap or the old block is at most what one page holds; then the new block starts with the bytes of the old one, which is freed, and no other block changes; on failure nothing changes |
| `Malloc.FitsIff` | threads/malloc.c:204-210 | for the size that malloc gives the new block, that condition on the copy |
| `Malloc.WrappedCopy` | threads/malloc.c:204-210 | a concrete size and old block for which more is copied than the new block holds |
| `Malloc.Heap.TakePages` | threads/palloc.c:66-97 | pages for the rest of the kernel do not disturb the allocator |
| `Malloc.Heap.ReturnPages` | threads/palloc.c:113-138 | nor does giving them back |
| `Malloc.NewArenaKept` | threads/malloc.c:125-146 | writing to a new arena's page changes no block in use |
| `Malloc.PutKept` | threads/malloc.c:231-242 | filling and linking a freed block changes no other |
| `Malloc.DropKept` | threads/malloc.c:247-252 | filling a page given back changes no block in use |
| `PageTables.SpunKeeps` | vm/frame.c:93-107 | moving the clock hand keeps the invariant and the bytes of every page |
| `PageTables.EvictedKeeps` | vm/swap.c:128-165 | eviction keeps the invariant and the bytes of every page |
| `PageTables.LinkedKeeps` | vm/frame.c:52-64 | a new frame changes the bytes of its own page only |
| `PageTables.SwappedInKeeps` | vm/swap.c:92-95 | reading back gives the page its slot's bytes, frees that slot and changes no other page |
| `Paging.VirtualMemory.SelectForEvict` | vm/frame.c:86-111 | terminates; the first page not accessed, or the front if all were, is unmapped |
| `Paging.VirtualMemory.WriteToDisk` | vm/swap.c:184-197 | the slot holds the frame's bytes, all other sectors are unchanged |
| `Paging.VirtualMemory.ReadFromDisk` | vm/swap.c:171-181 | the frame holds the slot's bytes, all other frames are unchanged |
| `Paging.VirtualMemory.SwapOut` | vm/swap.c:128-165 | every page keeps its bytes and permission; exactly the victim leaves memory, to the first free slot; the other entries of the frame list keep their order from the victim on; a frame is free |
| `Paging.VirtualMemory.GetFrame` | vm/frame.c:31-36 | the loop ends with a frame that no page has: at once if one is free, else after exactly one eviction, of the victim |
| `Paging.VirtualMemory.AllocateFrame` | vm/frame.c:24-84 | a frame exactly for a known page that is not resident or is evicted by this very call; in order afterwards exactly unless the page was in swap or evicted itself; no other page changes, and the bytes of a page in swap stay in its slot; the mapping is not accessed, has the permission of the page, and is last on the frame list, behind the others in their order |
| `Paging.ResidentLost` | vm/frame.c:31-64 | a concrete state in which a resident page is evicted and mapped to zeros |
| `Paging.VirtualMemory.SwapIn` | vm/swap.c:66-99 | the page is resident, its slot is free, and every page keeps its bytes, even if another had to be evicted |
| `Paging.VirtualMemory.AddPage` | vm/page.c:25-61 | a new entry is neither resident nor in swap |
| `Paging.VirtualMemory.Store` | userprog/exception.c:352-366 | a store to a resident page changes those bytes of that page and marks it accessed |
| `Threads.StepKeeps` | threads/thread.c:234-334 | every step keeps: one running thread; ready threads, but idle, once on the ready list; blocked threads, but idle, once among the waiters they wait with; no lost wakeup |
| `Threads.StepPromised` | threads/thread.c:179-334 | every step does what its call promises: who runs next, who is ready behind whom, who sleeps where, the values, and that everything else stays |
| `Threads.RunKeeps` | threads/thread.c:500-576 | so does every run |
| `Threads.ScheduleKeeps` | threads/thread.c:500-576 | schedule restores exactly one running thread |
| `Threads.UpKeeps` | threads/synch.c:107-122 | an up keeps the value at most the number of woken threads while others wait |
| `Threads.RecheckKeeps` | threads/synch.c:69-77 | so does a woken thread that completes its down |
| `Threads.OneList` | threads/thread.h:83-88 | no thread is on two lists |
| `Threads.WakeupPending` | threads/synch.c:61-77 | when the value is positive while threads wait, a woken thread is running or ready and will recheck |
| `Threads.StepFifo` | threads/thread.c:500-507 | a step takes at most the first thread off the ready list, and only to dispatch it |
| `Threads.Fifo` | threads/thread.c:500-576 | the thread at position k of the ready list is dispatched by call number k + 1 of schedule, in every run |
| `Threads.WaitFifo` | threads/synch.c:61-122 | the thread at position k of a semaphore's waiters is woken by up number k + 1, in every run |
| `Threads.ValueCounts` | threads/synch.c:61-122 | a semaphore's value is its earlier value plus ups less completed downs, in every run |
| `Threads.StartOk` | threads/thread.c:96-132 | the kernel with its idle thread blocked satisfies the invariant |
| `Locks.ActKeeps` | threads/synch.c:193-238 | every step of a lock operation keeps: value plus threads inside is one, and the holder is inside |
| `Locks.MutualExclusion` | threads/synch.c:176-238 | in every run at most one thread is between a completed acquire and its release, and none while the value is one |
| `Locks.OneStepLock` | threads/synch.c:193-238 | as to who is inside, a lock is taken by the completed down and given back by the up, in one step each, and no other step has an effect |
| `Locks.LockStart` | threads/thread.c:96-132 | the kernel starts in a state that satisfies the invariant of the locks |
| `Locks.InitMakes` | threads/synch.c:176-183 | after lock_init the lock exists, has no holder and nobody inside, and a running thread may acquire it |
| `Locks.AcquireFree` | threads/synch.c:193-202 | lock_acquire of a free lock ends with the caller holding it, alone inside, and no other lock changed |
| `Locks.AcquireWaits` | threads/synch.c:193-202 | lock_acquire of a lock with a thread inside makes the caller sleep |
| `Locks.TryTakes` | threads/synch.c:210-222 | lock_try_acquire takes a free lock and does nothing otherwise |
| `Locks.ReleaseFrees` | threads/synch.c:230-238 | lock_release ends with nobody inside, and the thread that waited longest is ready |
| `Conditions.CondKeeps` | threads/synch.c:289-340 | every step of cond_wait, cond_signal and any other thread keeps: a waiter is on its condition's list exactly until it is signalled, and its private semaphore is one exactly from the signal to its down |
| `Conditions.CondRunKeeps` | threads/synch.c:289-340 | so does every run |
| `Conditions.CondStart` | threads/thread.c:96-132 | the kernel starts in a state that satisfies that invariant |
| `Conditions.CondInitMakes` | threads/synch.c:261-267 | cond_init makes a condition without waiters, and changes nothing else |
| `Conditions.WaitBegins` | threads/synch.c:299-300 | the caller of cond_wait is the last waiter, with a semaphore of its own that is zero, and still has the lock |
| `Conditions.WaitClears` | threads/synch.c:301-301 | it then clears the holder of the lock, which it may, and nothing else |
| `Conditions.WaitReleases` | threads/synch.c:301-301 | and ups its semaphore: nobody is inside the lock, and the thread that waited longest for it is ready |
| `Conditions.WaitSleeps` | threads/synch.c:302-302 | unless it was signalled, it sleeps on its own semaphore |
| `Conditions.WaitTakes` | threads/synch.c:303-303 | awake, it takes the lock when it is free |
| `Conditions.WaitReturns` | threads/synch.c:303-303 | and leaves cond_wait with the lock in its hands |
| `Conditions.SignalFirst` | threads/synch.c:313-325 | cond_signal wakes exactly the thread that waited longest: its semaphore becomes one, it is made ready if it slept, and no other waiter changes |
| `Conditions.SignalKept` | threads/synch.c:301-302 | no signal is lost: a signalled thread sleeps on no semaphore and its own is one, even if the signal comes between lock_release and sema_down |
| `Conditions.SignalTaken` | threads/synch.c:302-302 | the down of a signalled thread completes at once |
| `Conditions.MarkStep` | threads/synch.c:289-304 | a thread leaves cond_wait only with the lock in its hands, and gets past its down only after a signal for it |
| `Conditions.NoSpuriousWakeup` | threads/synch.c:289-325 | in every run, a waiter that goes on was taken off the list by a signal |
| `Conditions.ListStep` | threads/synch.c:289-325 | the list of a condition changes only by the thread that holds its lock |
| `Conditions.CondFifo` | threads/synch.c:289-325 | the waiter at position k is signalled by signal number k + 1, in every run |
| `Conditions.Broadcast` | threads/synch.c:333-340 | cond_broadcast signals exactly the threads that waited when it began, in order, whatever other threads do meanwhile |
| `Conditions.HolderStays` | threads/synch.c:228-238 | a thread that holds a lock keeps it, whatever step any thread takes, until it clears the holder itself |
| `Queues.Lists.PushBack` | lib/kernel/list.c:216-220 | a thread on no list is linked in last; every link of every list is consistent, and the other lists are unchanged |
| `Queues.Lists.PopFront` | lib/kernel/list.c:267-273 | the first thread is unlinked and returned; the same |
| `Queues.Lists.AddList` | threads/synch.c:44-51 | a new empty list; the others are unchanged |
| `Queues.Lists.AddThread` | threads/thread.c:454-480 | a new thread's element is on no list; all lists are unchanged |
| `Queues.LayoutPush` | threads/thread.h:83-88 | the shared element of a thread on no list can be put on one without being on two |
| `Kernel.Scheduler.NextThreadToRun` | threads/thread.c:500-507 | from the links: a ready thread that was first and is then on no ready list, or idle if none is ready |
| `Kernel.Scheduler.Schedule` | threads/thread.c:525-576 | called with no thread running and the lists otherwise in order, leaves exactly one running and the lists in order; over the links it is the scheduling step |
| `Kernel.Scheduler.ThreadBlock` | threads/thread.c:234-242 | exactly one thread is running afterwards; over the links it is blocking and then the scheduling step |
| `Kernel.Scheduler.ThreadUnblock` | threads/thread.c:252-264 | a blocked thread whose element is free is ready and linked in last, and the ready list stays in order |
| `Kernel.Scheduler.ThreadCreate` | threads/thread.c:179-226 | the new thread is ready, last on the ready list; running thread, semaphores and all other threads are unchanged; the kernel stays in order |
| `Kernel.Scheduler.ThreadYield` | threads/thread.c:320-334 | the caller goes behind all ready threads, unless it is idle, and the first of them runs; idle runs only if none is ready |
| `Kernel.Scheduler.ThreadExit` | threads/thread.c:301-316 | the caller is gone, or dying if it is the initial thread, and the first ready thread runs, or idle |
| `Kernel.Scheduler.IdleLoop` | threads/thread.c:397-402 | idle blocks and the first ready thread runs, if there is one |
| `Kernel.Scheduler.SemaInit` | threads/synch.c:44-51 | a semaphore that nobody waits for gets its value and an empty list, and nothing else changes |
| `Kernel.Scheduler.SemaDown` | threads/synch.c:61-77 | a positive value falls by one and the caller goes on; at zero the caller is blocked, last among the waiters, and the first ready thread runs |
| `Kernel.Scheduler.SemaTryDown` | threads/synch.c:84-103 | a positive value falls by one, and nothing else changes; at zero nothing does |
| `Kernel.Scheduler.SemaUp` | threads/synch.c:109-122 | the value rises by one; the thread that waited longest was blocked, is on no list when it is put on the ready list, and is last there; all others are unchanged |
| `Kernel.FrontAlone` | threads/synch.c:116-119 | the thread that waited longest is on no list once it is taken off its own |
| `Arithmetic.Nlz` | lib/arithmetic.c:41-73 | the shift that brings the highest one bit to bit 31 |
| `Arithmetic.ShortDivision` | lib/arithmetic.c:78-93 | two divl steps give the quotient by a 32-bit divisor, and neither traps |
| `Arithmetic.Estimate` | lib/arithmetic.c:94-128 | dividing by the truncated divisor is at most one too large |
| `Arithmetic.LongDivision` | lib/arithmetic.c:94-128 | the estimate, the product that tests it and the divl are all in range |
| `Arithmetic.Correct` | lib/arithmetic.c:118-127 | one comparison corrects the estimate |
| `Arithmetic.UDiv64` | lib/arithmetic.c:77-128 | the exact quotient for all 64-bit operands |
| `Arithmetic.UMod64` | lib/arithmetic.c:131-135 | the low 32 bits of the remainder |
| `Arithmetic.UMod64Exact` | lib/arithmetic.c:131-135 | the remainder, for every dividend, if and only if the divisor is at most 2^32 |
| `Arithmetic.SDiv64` | lib/arithmetic.c:139-147 | the quotient truncated toward zero, reduced to 64 bits |
| `Arithmetic.SDiv64Exact` | lib/arithmetic.c:139-147 | exact if and only if it is not -2^63 / -1 |
| `Arithmetic.SMod64` | lib/arithmetic.c:150-154 | the remainder with the sign of the dividend, reduced to 32 bits |
| `Arithmetic.SMod64Exact` | lib/arithmetic.c:150-154 | the remainder, for every dividend, if and only if the divisor's magnitude is at most 2^31 |
| `Stdlib.DoSwap` | lib/stdlib.c:66-79 | the byte loop exchanges two elements of any size and changes no other byte |
| `Stdlib.FloatStep` | lib/stdlib.c:101-123 | swapping a node with its larger child keeps the heap but for that child |
| `Stdlib.Heapify` | lib/stdlib.c:96-124 | the node's subtree is a heap again; only the first cnt elements are permuted |
| `Stdlib.RootIsMax` | lib/stdlib.c:145-151 | the root of a heap is its maximum |
| `Stdlib.SettleRoot` | lib/stdlib.c:145-151 | moving the root to the end settles it |
| `Stdlib.Sort` | lib/stdlib.c:131-152 | a sorted permutation, for any total preorder |
| `Stdlib.BinarySearch` | lib/stdlib.c:184-207 | terminates; the offset of an equal element, or none exactly if there is none |
| `Stdlib.SortAndSearch` | lib/stdlib.c:131-207 | after sorting, the search finds a key exactly if the original array had an equal element |

## Left out

- Files of more than 512 sectors: byte_to_sector panics there, and the doubly indirect branch of inode_grow is unfinished.
- Panics: out of sectors, out of swap slots, a failed assertion. They are preconditions (`GrowOk`, `FreeSlot`, `BlockOk`), or proved not to happen.
- Persistence of large files across reboots: the header holds kernel addresses of indirect tables, so the model covers one boot; the address that calloc returns for a table is a parameter.
- Failed allocation of kernel memory in the storage layers, and the leaks of failed creates.
- Read-ahead past the last sector: sectors handed out leave room for it, as `Inodes.FileSys.Free` says.
- FreeMaps.FreeMap.Release: the outcome of writing the map file is ignored by the code, so the file is in step only if the write was complete; how many bytes a write manages is given by the environment here. `Inodes.FileSys.WriteMap` shows that through the inode layer every write is.
- FreeMaps.FreeMap.Create: the map file is its bytes only; `MapFile.Create` has it as an inode.
- Writes to the map file by anyone but the free map, which no name leads to: once it is open, growing it, writing to it and its last close are excluded (`Inodes.FileSys.NotMap`).
- inode_deny_write and inode_allow_write, which only count; inode_length and inode_get_inumber, which only read.
- dir_open's extra open count, dir_create, dir_lookup and path walking; `Directories.Dir.constructor` takes an inode that is open already.
- The background flusher running beside writers, and eviction racing with an entry that a thread still uses: flushes are serialised calls, and the protocol is on an entry that stays cached.
- CacheProtocol.StepKeeps: its lock is taken and given back in one step each, which `Locks.OneStepLock` states of locks, and its condition has the effect that `Conditions` proves of cond_wait and cond_broadcast.
- list_max and list_min.
- hash_clear, hash_destroy, hash_apply and the FNV hash functions; elements of a bucket are a sequence, and the count of elements does not wrap.
- calloc, whose overflow test does not work, and the links and headers as bytes in memory: what the allocator writes into headers, links, freed blocks and freed pages is arbitrary.
- Malloc.Heap.Realloc: says nothing of the bytes when the copy does not fit, since it then overwrites what follows the new block.
- The per-process frame list, the leak of the frame table entry when allocate_frame fails, page directories beyond a map from pages to frames, file-backed pages, mmap and process exit.
- Paging.VirtualMemory.SwapIn: requires a page that is in swap, which the page-fault handler tests before the call.
- Timer ticks and the idle thread's start: a preempting interrupt is a yield, and runs begin when idle has blocked for the first time.
- Threads.Fifo: says which thread a call of schedule dispatches; that schedule is called again is up to the timer.
- Stdlib.Sort: indices and offsets do not wrap.
- The 80x86 division instruction is the specified primitive `Divl`, which traps when the quotient needs more than 32 bits.
- System calls, processes, devices, interrupts, the loader, the console, string helpers and RC4.
