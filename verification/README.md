# A model of GemFS and of the gemOS paging and scheduling code

This project models three parts of the repository and proves properties of them.

**The object store** (`Ass4/objstore.c`). A small file system: an inode bitmap, a
data-block bitmap, a table of objects with four direct and four indirect pointers,
a direct-mapped write-back block cache, and metadata that is written back when the
store is unmounted. One source builds two programs, with the cache and without it.

- `Options.dfy`: a value that may be missing.
- `Blocks.dfy`, `BlockLayer.dfy`: blocks, the words of an indirect block, and the
  layer below the store in either build, with the contents seen through it.
- `StoreModel.dfy`: every operation as a function on the whole state.
- `Ownership.dfy`, `Writing.dfy`, `Releasing.dfy`, `Reading.dfy`: the invariant that a
  data bit is set exactly when one pointer of one live object names the block, and
  what writing, destroying and reading do to it and to contents.
- `FileMap.dfy`: the store refines a map from object numbers to names, sizes and pages.
- `Lockstep.dfy`: the two builds answer alike over every run.
- `Encoding.dfy`, `Restart.dfy`, `Sessions.dfy`: bytes of entries and bitmaps, unmount
  and mount, and exactly what comes back after a session. The size of a `long`, 4 or 8
  bytes, is a parameter: it decides whether 46 entries fill a chunk.
- `LockstepSessions.dfy`: the two builds across unmount and mount. `Lifetimes.dfy`: any
  number of sessions, one after the other.
- `Bitmaps.dfy`, `ObjectStore.dfy`: bit scans over 32-bit words and the class whose
  methods change the arrays in place; each method is proved to compute its function.

**Four-level page tables** (`Ass2/entry.c`, `Ass1/actual.c`, the teardown of
`Ass1/context_mm.c`), in the format of the Intel SDM Volume 3A, sections 4.5 to 4.7.

- `PageTables.dfy`: walks, walk-and-extend, unmapping, and the invariant that tables
  and pages form a tree in which no frame is reached by two paths.
- `AddressSpace.dfy`, `UserMemory.dfy`: demand paging, expand, shrink and the console
  write of a process; the class works on the tables in place.
- `ProcessImage.dfy`, `ImageMemory.dfy`: building a process's first three pages and
  tearing them down; the class has the loops and the frame arrays.

**The scheduler** (`Ass3/schedule.c`).

- `Scheduler.dfy`, `Contexts.dfy`: tick, sleep, clone and exit over sixteen slots, and
  the class with the loops.

## Where the code differs from its evident intent

The functions follow the code; each difference has a theorem that says exactly when
the code does what is meant.

- *Overwriting a mapped page.* Lines 287-291 and 348-352 of `Ass4/objstore.c` use the old
  pointer as a bit number without subtracting the offset that lines 176, 188 and 283
  apply, and line 290 stores a direct pointer without adding it. `Write` has a parameter
  `adjust`: 0 is the code as written, `WRITE_OFFSET` the lines corrected. The class
  computes the code as written. `WriteRightIffUnmapped` is the exact condition and
  `OverwriteIs` the whole effect as written; `OverwriteReached` gets to the failing case
  from a disk of zeros.
- *Offsets inside a page.* Reads and writes start at the beginning of the page their offset
  lies in (lines 264 and 380 of `Ass4/objstore.c`), while lines 101 and 115 of
  `Ass4/objfs.c` pass any offset on. `ReadInPlaceIff` and `WriteInPlaceIff` say that the
  bytes are those at the offset exactly when it is a multiple of 4096, `ReadsInPlace` and
  `WritesInPlace` which bytes they are at every offset; `ReadAtHundred` is an instance.
- *Entries per chunk.* The unmount marks chunk n/46 for entry n and chunks hold 4048
  bytes, 88 for each entry. The struct of lines 12-18 has 88 bytes where a `long` has
  four, and 96 where it has eight. `SessionRestoresIff` says for every run exactly when
  the table comes back, `EntryRestoredIff` entry by entry; `AlwaysRestoresIff` that every
  run does so exactly where a `long` has four bytes; `FortyThirdNameLost` is a legal run
  from a disk of zeros that loses a name where it has eight, and `CreatesRestore` runs that
  lose none there, entries that their own marks miss included (`HundredReach`).
  `LifeMeets` and `NarrowLifeMeets` carry this to any number of sessions.
- *64-bit sums in expand and shrink.* A page count of 2^52 or more wraps
  (`ExpandRightIff`, `ShrinkRightIff`, with `ExpandWraps` and `ShrinkWraps` as instances).
- *A zero-length console write* is accepted exactly when the buffer's address and the one
  before it are mapped (`EmptyWriteIff`); `EmptyWriteRefused` is an instance.
- *sleep(0)* lasts 2^32 ticks (`AwakeOnTimeIff`).
- *Counters of slots that do not sleep* count down too. An unused slot that is not cloned
  is woken on exactly the tick that brings its counter to one (`UnusedWokenIff`). From
  boot with no system call that is tick 2^32 - 1 for every unused slot at once
  (`WrapWakes`, `UnusedStaysIff`).
- *The teardown of `Ass1/context_mm.c`* collects its frames in nine places, enough exactly
  when two of the three pages are in the same 512 GB (`MaxNIff`).
- *The teardown of `Ass1/actual.c`* frees a page shared by two segments twice
  (`UsersReleased`), and clears a word of a table it has already freed exactly when two
  of the three pages are in the same 2 MB (`ClearsFreedIff`).

## Model

| member | source | states |
|---|---|---|
| BlockLayer.WriteBlockView | Ass4/objstore.c:39-56 | a cached or direct block write keeps the cache coherent (dirty lines know their block, clean ones equal the disk) and changes the contents seen at that block only |
| BlockLayer.ReadBlockView | Ass4/objstore.c:57-82 | a block read, hit or miss, returns the newest copy and changes no contents seen anywhere |
| BlockLayer.DiscardView | Ass4/objstore.c:83-91 | dropping a line disturbs no other block and keeps the cache coherent |
| BlockLayer.WritesBackOnly | Ass4/objstore.c:39-91 | with the cache the disk changes only where a dirty line is turned out, and there to what was seen of its block: a write does not reach the disk, nor does a read that hits or a drop |
| BlockLayer.OneLineChanges | Ass4/objstore.c:39-91 | only the line of the block used changes: dirty after a write, clean after a read that misses, empty after a drop |
| Blocks.WordIsLittle | Ass4/objstore.c:329-339 | an indirect block is 1024 words of four bytes, the low byte first |
| Ownership.SetBitHasOneOwner | Ass4/objstore.c:162-369 | the ownership invariant in words: a bit is set iff a live pointer names its block, no two pointers name one block, dead objects name nothing |
| Ownership.AddOwner | Ass4/objstore.c:273-284 | an empty site that takes a free block keeps ownership exact |
| Ownership.DropOwner | Ass4/objstore.c:175-180 | the bit of a pointer given up was set, and flipping it keeps ownership exact |
| Ownership.CreateKeeps | Ass4/objstore.c:116-145 | create keeps the whole invariant and moves no pointer |
| Ownership.RenameKeeps | Ass4/objstore.c:234-251 | rename keeps the whole invariant and moves no pointer |
| StoreModel.NameCopied | Ass4/objstore.c:130-245 | a name put over another replaces its bytes and one NUL; the field is as it was past that |
| Writing.MarkKeeps | Ass4/objstore.c:262-262 | marking a chunk of the table keeps the invariant and every pointer |
| Writing.WriteStores | Ass4/objstore.c:258-369 | a write to an unmapped page, also one that takes both a data block and an indirect block, keeps the invariant, leaves at its page the bytes of the buffer and then zeros to the page's end, and leaves every other page of every object as it was |
| Writing.OverwriteFails | Ass4/objstore.c:286-292 | overwriting a mapped page with other bytes, without the adjustment, breaks the invariant or loses the write |
| Writing.WriteRightIffUnmapped | Ass4/objstore.c:281-362 | a write stores every buffer soundly exactly when the page holds no block yet, or the overwrite lines are adjusted |
| Writing.OverwriteIs | Ass4/objstore.c:258-362 | a write to a mapped page as the code stands: it answers the buffer's length; the new block holds the buffer and zeros; a direct page's pointer becomes the bare block number and an indirect page's the one with the offset; the bit whose number is the old pointer is flipped; no other pointer, size or page's block changes |
| Releasing.ReleaseSite | Ass4/objstore.c:175-184 | each pointer given back flips a set bit exactly once and disturbs no block still owned |
| Releasing.DestroyFrees | Ass4/objstore.c:162-225 | destroy empties the object's pointers, frees exactly its blocks, leaves no line of the cache with one of them, and leaves the contents of every other object's blocks |
| Releasing.DestroyTable | Ass4/objstore.c:169-207 | of the table, destroy clears one entry's size and pointers and keeps its number and name; of the bits, its own inode bit; of the marks, it sets that of its chunk |
| Releasing.DestroyKeeps | Ass4/objstore.c:162-225 | destroy keeps the whole invariant |
| Releasing.DestroyConserves | Ass4/objstore.c:174-216 | the set bits lose exactly the object's blocks, and their number drops by the number owned |
| Reading.ReadSlotsPages | Ass4/objstore.c:387-399 | a count-down loop over pointers reads exactly the pages after the skipped ones, in order |
| Reading.ReadGroupsPages | Ass4/objstore.c:401-423 | the loops over indirect blocks continue with exactly the next pages |
| Reading.ReadAllPages | Ass4/objstore.c:376-428 | a read fetches the pages the write side's addressing names, in order from the offset's page, and changes nothing seen |
| Reading.AddressingIsExact | Ass4/objstore.c:296-299 | group and entry of a page past the fourth determine the page |
| Reading.LargestObjectFits | Ass4/objstore.c:9-9 | reads within 16 MB stay within the 4100 pages an object can have |
| FileMap.FindMeets | Ass4/objstore.c:92-108 | find answers with the lowest number of that name, or -1 when there is none |
| FileMap.CreateMeets | Ass4/objstore.c:116-145 | create adds an empty file at the lowest unused number, or answers -1 when there is none |
| FileMap.DestroyMeets | Ass4/objstore.c:162-225 | destroy removes the file it names and no other |
| FileMap.BitsCountCells | Ass4/objstore.c:270-317 | the set data bits are as many as the pages and indirect blocks of all files |
| FileMap.WriteMeets | Ass4/objstore.c:258-369 | a write changes one page of one file and its size, or answers -1 exactly when no block is free |
| FileMap.ReadMeets | Ass4/objstore.c:376-428 | a read returns the bytes of the mapped pages and changes no file |
| FileMap.StepMeets | Ass4/objstore.c:92-428 | every operation keeps the invariant and does to the files what the specification says |
| FileMap.RunMeets | Ass4/objstore.c:92-428 | over every legal run the store stays sound and its files and answers are those of the specification |
| FileMap.WrittenIsRead | Ass4/objstore.c:258-428 | what is written to a page, byte for byte, and zeros where the buffer falls short of the page, is what any later read of it returns, whatever operations between spare the page and its file |
| FileMap.RunReturnsWritten | Ass4/objstore.c:258-428 | in a run of the store itself that writes a page, goes on with operations that spare it and ends in a read, the read answers the bytes of the buffer and zeros past them |
| FileMap.WriteSparesOthers | Ass4/objstore.c:258-369 | a write adds and drops no file and leaves every other page of every file, present or absent, as it was |
| FileMap.ReadInPlaceIff | Ass4/objstore.c:380-426 | byte i of a read is byte offset + i of the file, for all files, exactly when the offset is a multiple of the page size |
| FileMap.WriteInPlaceIff | Ass4/objstore.c:264-358 | the bytes written are afterwards those of the file from the offset on, for all files and buffers, exactly when the offset is a multiple of the page size |
| FileMap.ReadAtHundred | Ass4/objstore.c:380-380 | a read of one byte at offset 100 returns the first byte of the file |
| FileMap.ReadsInPlace | Ass4/objstore.c:376-428 | byte i of the store's answer to a read at any offset is byte start + i of the file, start being the last multiple of 4096 up to the offset |
| FileMap.WritesInPlace | Ass4/objstore.c:258-369 | a successful write at any offset makes the 4096 bytes of the file from the last multiple of 4096 up to the offset the buffer and zeros, and leaves every other byte of every file |
| FileMap.LegalReadIff | Ass4/objstore.c:376-428 | the reads of a run: the pages of all the bytes asked for are there, and so are the indirect blocks the loops pass through, and nothing else is asked |
| FileMap.LegalWriteIff | Ass4/objstore.c:258-369 | the writes of a run: a buffer of at most a page, one of the 4100 pages, not there or with the lines adjusted, and not the last free block where a new indirect block is needed as well |
| Lockstep.StepAlike | Ass4/objstore.c:181-428 | one operation of the cached and uncached builds answers alike and keeps bitmaps, table and contents of used blocks alike |
| Lockstep.RunAlike | Ass4/objstore.c:162-428 | the two builds step in lockstep over every legal run |
| LockstepSessions.MountsAgree | Ass4/objstore.c:458-490 | mounted from one disk the two builds agree |
| LockstepSessions.SessionsAgree | Ass4/objstore.c:458-530 | after a run, an unmount and a mount of each build the two agree again, and where one comes back whole so does the other, with the same files |
| Encoding.EntryIff | Ass4/objstore.c:12-18 | bytes read as an entry, but for what is past the name's NUL, exactly when they are its own up to there |
| Encoding.EntryRoundTrip | Ass4/objstore.c:12-18 | an entry reads back from its bytes as it was up to what is past its name's NUL, with longs of either size |
| Encoding.EntryLayout | Ass4/objstore.c:12-18 | where the fields of an entry are among its bytes: two longs, the name with its NUL, four direct and four indirect pointers, each low byte first |
| Encoding.BitBlockRoundTrip | Ass4/objstore.c:450-457 | each bit of a bitmap reads back from its block |
| Bitmaps.WordOnDisk | Ass4/objstore.c:517-522 | a bitmap's block on disk is its words as they are in memory, low byte first: byte k of word e is the number made by bits 8k to 8k + 7 |
| Restart.EntryOnDisk | Ass4/objstore.c:498-505 | after unmounting, byte j of entry o is in block n / 4048 at n % 4048, n being its place in the table, if that chunk was marked; otherwise the disk has there what it had |
| Restart.MapsOnDisk | Ass4/objstore.c:498-522 | after unmounting, a chunk that is not marked is as it was and a marked one ends in 48 zeros; the inode bitmap is in blocks 22528 to 22558, the data bitmap in the next 256, and then each data block as it was seen |
| Restart.RestartRestoresIff | Ass4/objstore.c:458-530 | unmount then mount restores the bitmaps, and the table exactly when every byte that matters is on disk or in a marked chunk; then also the contents of every block and the files |
| Sessions.StepTouches | Ass4/objstore.c:125-262 | each operation changes at most the entry whose chunk it marks and writes no metadata block |
| Sessions.RunReaches | Ass4/objstore.c:92-428 | over a run, entries it does not touch stay, and the marks are exactly those there were and those of the entries it touched |
| Sessions.SessionRestoresIff | Ass4/objstore.c:458-530 | after any legal run, unmount and mount give back the bitmaps always, and the whole store exactly when each touched entry is saved: what matters of it is in a chunk that was marked, or is marked for an entry the run touched, or was on the disk at mount |
| Sessions.EntryRestoredIff | Ass4/objstore.c:458-530 | entry by entry, over any legal run: it comes back exactly when it was not touched or is saved |
| Sessions.MarkedRunRestores | Ass4/objstore.c:498-505 | a run whose touched entries lie in chunks that were marked, or are marked for any entry it touched, comes back whole |
| Sessions.NarrowRunsRestore | Ass4/objstore.c:458-530 | with four-byte longs, 46 entries to a chunk, every legal run comes back whole |
| Sessions.AlwaysRestoresIff | Ass4/objstore.c:458-530 | every legal run of every session comes back whole exactly when a long has four bytes |
| Sessions.CreatesRestore | Ass4/objstore.c:125-129 | with eight-byte longs too, creating n objects in one session comes back whole where their marks together reach, covered or not |
| Sessions.HundredReach | Ass4/objstore.c:125-129 | the marks of a hundred creates reach together, though those of entries 42 and 91 do not cover them |
| Sessions.FortyThirdNameLost | Ass4/objstore.c:125-129 | with eight-byte longs, forty-three creates on a disk of zeros, unmounted and mounted, lose the last name |
| Sessions.CoveredExactly | Ass4/objstore.c:500-501 | the mark of an entry covers all its bytes exactly when a long has four bytes, or under this inequality on its number |
| Sessions.FirstFortyTwo | Ass4/objstore.c:500-501 | with eight-byte longs the first 42 entries are covered and the next is not |
| Sessions.WriteSurvivesIffCovered | Ass4/objstore.c:262-331 | just after a mount, the first write past an entry's direct pages survives unmount and mount exactly when its mark covers the entry |
| Sessions.BlankDiskMounts | Ass4/objstore.c:458-490 | a disk of zeros mounts as a sound, empty store |
| Sessions.OverwriteReached | Ass4/objstore.c:286-292 | create, write and write again on a disk of zeros: the second write is not stored |
| Lifetimes.LifeMeets | Ass4/objstore.c:458-530 | over any number of sessions, each of which saves what it touches, the files and all answers are those of the specification for the operations of all sessions in one run, and the last mount is as sound as the first |
| Lifetimes.NarrowLifeMeets | Ass4/objstore.c:458-530 | with four-byte longs that is so of any number of sessions of legal runs |
| Lifetimes.NarrowLifeFromZeros | Ass4/objstore.c:458-530 | starting from a disk of zeros, the files after all the sessions are those the operations made |
| Bitmaps.ScanClear | Ass4/objstore.c:270-273 | the nested scan over words and doubled masks finds the first clear bit, or the end |
| Bitmaps.SetBit | Ass4/objstore.c:274-274 | OR with the mask sets that bit of the map and no other |
| Bitmaps.FlipBit | Ass4/objstore.c:177-179 | XOR with the shifted one flips that bit of the map and no other |
| ObjectStore.ObjStore.Mount | Ass4/objstore.c:458-490 | mounting leaves the arrays as the disk's bytes say, with an empty cache and no marks |
| ObjectStore.ObjStore.LoadChunk | Ass4/objstore.c:480-485 | the loop over 4048 bytes copies a chunk into its place in the table's memory and nowhere else |
| ObjectStore.ObjStore.CopyChunk | Ass4/objstore.c:500-502 | the loop over 4048 bytes fills the buffer with the chunk, its last 48 bytes staying zero |
| ObjectStore.ObjStore.WriteCached | Ass4/objstore.c:39-56 | the in-place cache write computes the layer's write |
| ObjectStore.ObjStore.ReadCached | Ass4/objstore.c:57-82 | the in-place cache read computes the layer's fetch and its block |
| ObjectStore.ObjStore.FindCache | Ass4/objstore.c:83-91 | the in-place drop computes the layer's discard |
| ObjectStore.ObjStore.FindObjectId | Ass4/objstore.c:92-108 | the scan over words, bits and entries computes find |
| ObjectStore.ObjStore.CreateObject | Ass4/objstore.c:116-145 | the in-place create computes the create function on the whole state |
| ObjectStore.ObjStore.RenameObject | Ass4/objstore.c:234-251 | the in-place rename computes the rename function on the whole state |
| ObjectStore.ObjStore.DestroyObject | Ass4/objstore.c:162-225 | the loops over pointers and indirect words compute destroy and keep the invariant |
| ObjectStore.ObjStore.WriteObject | Ass4/objstore.c:258-369 | the in-place write, as written, computes the write function with no adjustment |
| ObjectStore.ObjStore.ReadObject | Ass4/objstore.c:376-428 | the two reading loops compute the read function and keep the invariant |
| ObjectStore.ObjStore.FlushCache | Ass4/objstore.c:507-515 | after the flush loop every data block on disk is what was seen through the cache, and no metadata block has changed |
| ObjectStore.ObjStore.Unmount | Ass4/objstore.c:495-530 | the whole disk after unmounting, block by block |
| PageTables.SamePathSamePage | Ass2/entry.c:11-33 | two addresses below 2^48 have the same four indices exactly when they are on one page |
| PageTables.PathDigits | Ass2/entry.c:11-33 | the four indices are the nine-bit digits of bits 12 to 47 of the address, the highest first |
| PageTables.SamePathIff | Ass2/entry.c:11-33 | any two addresses lead to one place exactly when those bits are the same |
| PageTables.NewEntryWord | Ass2/entry.c:183-225 | a new entry is 5 or 7 below bit 12 and the frame number's low twenty bits above it, the frame itself exactly when the number is below 2^20 |
| PageTables.WithFlagsWord | Ass2/entry.c:171-175 | widening an entry leaves all but its three low bits as they were |
| PageTables.WalkFinds | Ass2/entry.c:6-37 | on a tree the walk finds exactly the frame recorded for a path, or nothing |
| PageTables.Rights | Ass2/entry.c:165-175 | a mapped page allows user access, and writes exactly as its own entry says, shared upper entries notwithstanding |
| PageTables.StepKeeps | Ass2/entry.c:169-188 | one stage of walk-and-extend keeps the tree and the free list apart and changes one entry only |
| PageTables.ExtendKeeps | Ass2/entry.c:164-226 | the three stages and the page keep the tree: no frame is reached by two paths |
| PageTables.OneTranslationMore | Ass2/entry.c:163-292 | the new address leads to its frame with the right asked for; all others translate and may be written as before |
| PageTables.UnmapKeeps | Ass2/entry.c:38-73 | free1 gives up the page's frame if it is mapped, and leaves a tree in which only that page has gone |
| PageTables.UnmapClears | Ass2/entry.c:60-68 | free1 clears the word that led to the page, if it is mapped, and no other word |
| PageTables.ExtendConserves | Ass2/entry.c:178-225 | every table frame taken is in the tree, and the page frame too |
| AddressSpace.ExpandRightIff | Ass2/entry.c:101-118 | expand does what unbounded arithmetic means exactly when the request fits or the wrapped sum is beyond the end |
| AddressSpace.ExpandWraps | Ass2/entry.c:103-108 | a request for 2^52 pages is granted and moves nothing |
| AddressSpace.FreePagesKeeps | Ass2/entry.c:130-132 | the shrink loop unmaps exactly the pages of its range, and every freed frame is back on the list |
| AddressSpace.ShrinkRightIff | Ass2/entry.c:119-135 | shrink does what unbounded arithmetic means exactly when the segment has the pages or the wrapped difference is below its start |
| AddressSpace.ShrinkWraps | Ass2/entry.c:128-134 | a request for 2^52 pages is not refused |
| AddressSpace.TouchKeeps | Ass2/entry.c:163-357 | a handled fault keeps the address space well kept and adds its page alone, with its segment's right |
| AddressSpace.FaultAddsOne | Ass2/entry.c:163-357 | after a handled fault its page leads to a frame that was free with the segment's rights, and every other page translates as before |
| AddressSpace.FaultRightIff | Ass2/entry.c:162-361 | for every fault on a page that is not there, the process goes on exactly when bit 0 of the error code is clear and start <= address < next_free in the data segment, or in the read-only one with bit 1 clear, or start <= address < end in the stack; then the page is mapped to the next free frame with that segment's flag and every other page as before, and otherwise nothing changes |
| AddressSpace.StepMeets | Ass2/entry.c:101-357 | each fault, expand or shrink matches its meaning on a plain set of pages, keeps the tree, accounts for every frame, and leaves pages that stay at their frames |
| AddressSpace.RunMeets | Ass2/entry.c:101-357 | over every run the answers and pages are those of the meaning, mapped pages of growable segments are below next_free, and frames are conserved |
| AddressSpace.EmptySpaceGood | Ass2/entry.c:164-166 | a cleared top table with nothing mapped is a well-kept address space, from which runs may start |
| AddressSpace.OutstandingIsMapped | Ass2/entry.c:64-68 | over every run, free user frames and mapped pages add up to the same number |
| AddressSpace.MappedIff | Ass2/entry.c:6-37 | an address is found valid exactly when it lies in one of the pages of the tree |
| AddressSpace.WriteChecksAll | Ass2/entry.c:88-100 | checking the first and last byte is checking every byte of the buffer, wrap-around included |
| AddressSpace.EmptyWriteIff | Ass2/entry.c:88-94 | a zero-length write is accepted exactly when the buffer's address and the one before it are mapped |
| AddressSpace.EmptyWriteRefused | Ass2/entry.c:91-94 | so it is refused at the foot of a mapped page with none below |
| UserMemory.Process.IsValid | Ass2/entry.c:6-37 | the four-stage walk answers 1 exactly when the address is mapped |
| UserMemory.Process.Free1 | Ass2/entry.c:38-73 | the walk and clear in place compute unmap, the frame going back to the list |
| UserMemory.Process.HandlePageFault | Ass2/entry.c:152-361 | the handler's branches, over in-place tables, compute the fault function and whether the process goes on |
| UserMemory.Process.SysExpand | Ass2/entry.c:101-118 | the in-place expand computes the expand function, result included |
| UserMemory.Process.SysShrink | Ass2/entry.c:119-135 | the loop over pages computes the shrink function, result included |
| UserMemory.Process.SysWrite | Ass2/entry.c:88-100 | the write answers n exactly when n is at most 1024 and every byte is mapped (for n at least 1) |
| ProcessImage.LevelIsStep | Ass1/actual.c:40-59 | on a tree this file's stage is the demand pager's stage |
| ProcessImage.PutKeeps | Ass1/actual.c:15-121 | mapping one segment keeps the tree, spends the free list in order, and uses the page exactly when none was there |
| ProcessImage.PreparedTree | Ass1/actual.c:10-123 | the prepared tables are a tree that holds the three pages, the tables on the way to them, and nothing else |
| ProcessImage.PreparedMaps | Ass1/actual.c:10-123 | after preparing, every address on the page of stack end - 4096 leads to the first free frame, on the code's first page to the second, on the data's first page to the caller's, user access throughout and writes exactly as that segment's flag says (a page asked for twice is the earlier one's); no other address leads anywhere, and the user frames spent are exactly those |
| ProcessImage.PrepareConserves | Ass1/actual.c:10-123 | the table frames in the image and those left are those there were |
| ProcessImage.FirstsOnce | Ass1/actual.c:177-181 | blanking later copies frees each nonzero frame of a list exactly once |
| ProcessImage.TablesReleasedOnce | Ass1/actual.c:172-197 | the teardown gives back every table frame of the image exactly once |
| ProcessImage.DeepestFirst | Ass1/actual.c:172-197 | no table goes back before one it leads to |
| ProcessImage.UsersReleased | Ass1/actual.c:165-167 | the user frames given back are those of the code's, the stack's and the data's page in that order, all that are mapped, and none twice exactly when the three page numbers differ |
| ProcessImage.PrepareThenTeardown | Ass1/actual.c:10-199 | prepare then teardown returns every table frame taken, each once, and of user frames those of the three pages, the two taken and the caller's where the page numbers differ |
| ProcessImage.CaseSplitIsFirsts | Ass1/context_mm.c:274-287 | comparing pairs keeps what blanking later copies keeps |
| ProcessImage.SplitFreesTheSame | Ass1/context_mm.c:272-307 | the case-split teardown frees the same table frames as the loop, each once, and each user frame once |
| ProcessImage.MaxNIff | Ass1/context_mm.c:273-288 | nine places suffice exactly when two of the three pages are in the same 512 GB; otherwise there are ten frames |
| ImageMemory.WordsCleared | Ass1/actual.c:173-176 | in any tables, the four words on each of the three paths, as they were found, go to zero, and no other word changes |
| ImageMemory.ImageCleared | Ass1/actual.c:173-176 | of an image, exactly the words that lead to its tables and pages go to zero |
| ImageMemory.NothingLeads | Ass1/actual.c:173-176 | after the teardown's clearing no address on any of the three pages translates, whatever the tables held |
| ImageMemory.NothingLeft | Ass1/actual.c:173-176 | and of an image no address at all does |
| ImageMemory.ClearsFreedIff | Ass1/actual.c:172-182 | some turn clears a word of a table freed by an earlier turn exactly when two of the three pages are in the same 2 MB |
| ImageMemory.Image.Clean | Ass1/actual.c:4-9 | the clearing loop leaves a table of zeros and touches no other frame |
| ImageMemory.Image.PrepareContext | Ass1/actual.c:10-123 | the building loop computes prepare |
| ImageMemory.Image.FreeTurn | Ass1/actual.c:177-181 | one turn frees a frame unless blanked and blanks its later copies in the array |
| ImageMemory.Image.CleanupContext | Ass1/actual.c:124-199 | the teardown's loops give back exactly the frames of the teardown function, in order, and clear the words on the three paths |
| ImageMemory.Image.CleanupBySplit | Ass1/context_mm.c:272-310 | with nine places enough, the counters and arrays collect and free the case-split frames in order, pages first |
| Scheduler.NextNearest | Ass3/schedule.c:70-80 | the search finds the nearest ready process round the ring, never the swapper, and -1 only when none is ready |
| Scheduler.TickIs | Ass3/schedule.c:62-139 | every slot of the table after a tick: all counters one lower and those at two woken; if a process is then ready the nearest is running with counter zero and the preempted one ready, the rest as the counting left them; if none is, nothing more but the shutdown, exactly when the swapper finds no sleeper |
| Scheduler.SleepIs | Ass3/schedule.c:220-273 | every slot after a sleep: the caller waits with one more than asked, the nearest ready process or the swapper runs, the rest as before |
| Scheduler.ExitIs | Ass3/schedule.c:151-215 | every slot after an exit: from the swapper it is the shutdown; any other caller's slot is unused, and with no process left the machine is shut down, otherwise the nearest ready one or the swapper runs, the rest as before |
| Scheduler.CloneIs | Ass3/schedule.c:295-342 | every slot after a clone: the new one is ready with the parent's counter, the rest, the current slot and the machine as before |
| Scheduler.AgeWakes | Ass3/schedule.c:62-69 | before the wrap a tick wakes sleepers at the end of their sleep and no other slot |
| Scheduler.TickKeeps | Ass3/schedule.c:47-91 | a tick keeps the invariant, or shuts down with every process gone |
| Scheduler.StepKeeps | Ass3/schedule.c:47-342 | tick, sleep, exit and clone each keep: one slot running, it is the current one, the swapper only when nothing is ready |
| Scheduler.RunKeeps | Ass3/schedule.c:47-342 | the same over every run of up to 2^32 - 2 ticks |
| Scheduler.StepDormant | Ass3/schedule.c:62-69 | only a tick touches a sleeper or an unused slot, and it wakes it exactly when its counter comes to one |
| Scheduler.SleepExact | Ass3/schedule.c:240-241 | whatever the others do, a sleeper is still asleep on every tick before its last and awake on that one |
| Scheduler.AwakeOnTimeIff | Ass3/schedule.c:240-241 | a process that called sleep(n) is awake after as many ticks, at least one, exactly when n is not zero |
| Scheduler.StepAdvances | Ass3/schedule.c:70-91 | every decision runs a ready process or brings the current slot nearer to it, the swapper not being chosen |
| Scheduler.RunsWithin | Ass3/schedule.c:70-242 | a ready process runs within as many decisions as it is places away, so within fifteen |
| Scheduler.PreemptedRuns | Ass3/schedule.c:86-92 | a process preempted by a tick is ready and runs again within fifteen decisions |
| Scheduler.CloneRuns | Ass3/schedule.c:336-341 | a clone is ready and runs within as many decisions as its slot is places away |
| Scheduler.ShutdownIff | Ass3/schedule.c:81-169 | the shutdown comes exactly when no process is left: at the swapper's tick or the last exit |
| Scheduler.WrapWakes | Ass3/schedule.c:64-66 | from boot with no system call, tick 2^32 - 1 wakes every unused slot at once and runs one |
| Scheduler.UnusedStaysIff | Ass3/schedule.c:64-66 | there every unused slot stays unused exactly through 2^32 - 2 ticks |
| Scheduler.UnusedWokenIff | Ass3/schedule.c:64-66 | over any legal run that does not clone it, an unused slot is woken on exactly the tick that brings its counter to one |
| Contexts.Kernel.CountDown | Ass3/schedule.c:62-69 | the first loop ages every slot in place and counts the sleepers |
| Contexts.Kernel.FindReady | Ass3/schedule.c:72-80 | the search loop computes the next ready slot |
| Contexts.Kernel.HandleTimerTick | Ass3/schedule.c:47-139 | the tick in place computes the tick function |
| Contexts.Kernel.DoExit | Ass3/schedule.c:151-215 | the exit in place computes the exit function |
| Contexts.Kernel.DoSleep | Ass3/schedule.c:220-273 | the sleep in place computes the sleep function |
| Contexts.Kernel.DoClone | Ass3/schedule.c:295-342 | the clone in place computes the clone function |

## Left out

Object store:

- FileMap.RunMeets: the runs of the code as written write only to unmapped pages; with the adjusted lines they write anywhere (see `WriteRightIffUnmapped`).
- FileMap.WriteMeets: asks for a second free block when a new indirect block is needed, page numbers below 4100 and buffers of at most one block; the code has no branch for the rest, and a failed second scan would store a pointer to block -1.
- FileMap.ReadMeets: reads cover mapped pages behind present indirect blocks; the code follows a zero pointer otherwise.
- FileMap.CreateMeets: says nothing of duplicate names, which the code does not look for (operations by name act on the lowest number). With eight-byte longs the memory mapped for the table ends inside entry 961194 (line 462), so the code writes outside it for that entry and those after; the model's table has all 1015808.
- Restart.RestartRestoresIff: table memory past the last entry, or past the chunks, is taken as zero, as it is on a disk that started as zeros.
- ObjectStore.ObjStore.WriteObject: a bit number outside the map flips memory that is not modelled, so that flip is skipped.
- ObjectStore.ObjStore.Mount: the bitmaps are read back bit by bit, where the code reads blocks into the words; copies of whole blocks in the cache are single assignments.
- Encoding.EntryIff: reads a 48-byte name field without a NUL as its first 47 bytes, and takes byte 47 of the field of a 47-byte name not to matter; strcmp in the code would run on into `direct[0]`. No entry the program writes has such a field.
- Names are byte strings shorter than 48 without a NUL; longer ones overrun the field in the code.
- Sizes are unbounded in the operations; `SoundStorable` in `Sessions.dfy` shows that they fit their field.
- Locks and interleavings of threads: each operation is one step.
- `release_object`, `fillup_size_details` and the `temp` pointer, logging, failures of reads and writes of the device, memory mapping.
- The file-system glue above the store (`Ass4/objfs.c`, `Ass4/lib.c`) and older copies of the store.

Paging:

- AddressSpace.TouchKeeps: the fault is on a page that is not there, as error-code bit 0 says, and the allocator has three table frames, cleared, and a user frame.
- AddressSpace.RunMeets: expands and shrinks that wrap are outside the runs, by the exact conditions of `ExpandRightIff` and `ShrinkRightIff`.
- ProcessImage.PreparedMaps: the allocator has ten table frames and two user frames; fewer are needed where paths are shared.
- ImageMemory.Image.CleanupBySplit: asks that nine places be enough, by the condition of `MaxNIff`; the code writes past its array otherwise.
- The frame allocator, `osmap`, `get_current_ctx` and `do_exit` of the kernel are not part of this model: frames come off a list of distinct, nonzero frame numbers below 2^20 and go back to it, and `osmap` is the identity.
- Segments are page-aligned, start above zero, lie below 2^48 and do not overlap.
- UserMemory.Process.HandlePageFault: the three copies of the walk are one method with the segment's flag as parameter.
- Register saving, `invlpg`, `iretq`, the printing of the buffer, and the other system calls.
- `prepare_context_mm` of `Ass1/context_mm.c`, which clears the wrong table at line 74 and combines an entry with itself at line 150.

Scheduler:

- Scheduler.RunKeeps: runs are shorter than the 32-bit wrap of the counters; on the next tick unused slots may be woken (`UnusedWokenIff`, `WrapWakes`).
- Scheduler.StepKeeps: system calls come from processes, not from the swapper, and a clone is given an unused slot; `get_new_ctx` is not part of this model.
- Saved registers, stacks, interrupt acknowledgement, names and segments copied by clone, signals and alarms.
- `do_cleanup` is taken not to return.
