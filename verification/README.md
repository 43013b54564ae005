# SimpOS: a verified model of the kernel's memory, files, parsers and queues

SimpOS is a small 32-bit operating system written in C. This project models, in Dafny, the
parts of it whose correctness depends on state kept over many calls:

- **Heap and address spaces.** The kernel heap is one byte per 4096-byte block. `HeapTable`
  says what such a table means (a set of disjoint allocations), `KernelHeap` holds the loops
  that search, mark and clear it in place. Page directories and page tables live in heap
  blocks: `Paging`, `PageDirectories` and `PageTeardown` hold the code that walks, builds and
  frees them, over an array of block contents. That two tables never share a block is not
  assumed anywhere; `AddressSpaces` and `AddressSpaceRuns` derive it from the allocator.
  `Translation`, `ProcessImage` and `TaskMemory` say what the tables mean for addresses: the
  fresh identity mapping, range mapping, the ELF image with its stack, the borrowed page of
  `copy_string_from_task`.
- **FAT16.** `DiskStreams` is the sector stream with its recursion, `FatChains` the cluster
  chain as a value, `Fat16` the reader that walks the chain again for every cluster.
  `FatLayout` says where FAT and clusters lie on the disk, `FatRecords` what the bytes of a
  directory record mean.
  `FatReads` says where every byte of a read comes from and when that is right, `FatStops`
  compares the chains with those of the FAT specification. `FatNames` and `FatDirectories`
  hold the 8.3 names and the path lookup, `FatPaths` what a lookup means. `FatMount` reads the
  geometry from the boot sector, and `FatExamples` has volumes that mount and are misread.
- **Text.** `Tokenising` defines words and joins, `Strings` is `strtok` with its global
  cursor on a mutable buffer, `CommandLine` the list of arguments, `ReadLine` the line editor,
  `PathParser` and `PathLists` the path parser with every heap block it takes and returns,
  `Itoa` the numeral printer.
- **Queues.** `Keyboard` is the ring buffer whose counters wrap, `TaskLists` the scheduler's
  doubly linked list, `TaskRuns` what a run of task creations and removals makes of it.

`Words` writes out 32-bit `|` and `&`, `Division` quotients by a number that is not a
constant, `Status` the error codes. Loops and field updates of the C code are loops and field
updates here; each such method is proved against a function or predicate on values, and the
properties are proved of those. Words are integers below 2^32 and wrap where the C code wraps.

Where code and intent differ, the code is modelled and the difference is stated exactly:

- `heap_get_start_block` answers with the start of the last, too short run of free blocks when
  nothing fits and the last block is free (`HeapTable.OverrunExactly`, `HeapTable.OverrunExample`).
- `diskstreamer_read` subtracts a whole sector although the first sector may have supplied less
  (`DiskStreams.StreamExactly`).
- `fat16_read_internal_from_stream` does not shorten its first chunk by the offset in the
  cluster (`FatReads.ReadExactly` for every offset and length, `FatExamples.UnalignedReadFails`).
- A chain stops at 0xfff8, 0xffff, 0xff7, 0xff0, 0xff6 and 0. Microsoft's FAT specification
  (section "FAT Data Structure") has 0xfff7 for a bad cluster and the whole range 0xfff8 to
  0xffff for the end of a chain (`FatStops.ChainsAgreeExactly`, `FatExamples.FileCutShort`,
  `FatExamples.FileReadPastItsEnd`).
- Counting the records of a directory goes round in its first sector for ever unless one of its
  first 16 records is the end marker (`FatDirectories.CountingEndsExactly`,
  `FatDirectories.FullSectorNeverEnds`), and a deleted record is taken in place of a live one
  (`FatDirectories.RecordsComplete`, `FatDirectories.DeletedHidesLive`).
- `memcmp` always returns 0, so a path needs a digit in front and nothing else
  (`PathLists.SeparatorUnchecked`).
- `task_list_remove` leaves the next task's back link as it was, so the order of creations and
  removals, with the blocks the allocator hands out, decides whether the list stays linked
  (`TaskRuns.Perform`, `TaskRuns.StaleLink`, `TaskRuns.ReusedBlock`).
- `heap_free` of a pointer into the middle of an allocation leaves a table that encodes nothing
  (`HeapTable.FreeDecodesExactly`).
- Backspace on an empty line is stored as a character, and the key that fills the line cannot be
  taken back (`ReadLine.BackspaceStoredExactly`, `ReadLine.BackspaceUndoesExactly`).
- A key pushed into a full keyboard buffer takes the place of the oldest, and after a backspace
  on an empty one the next key is lost (`Keyboard.PushSeenExactly`,
  `Keyboard.BackspaceSeenExactly`). Nothing in the kernel calls `keyboard_backspace`, so the
  second cannot happen today.

`dafny verify dfyconfig.toml` checks the whole project.

## Model

| member | source | states |
|---|---|---|
| HeapTable.EntryBytes | src/memory/heap/heap.c:110-133 | the bytes of an allocation are 0x41, or 0xc1, 0x81 for each block between, and 0x01; a byte is free when its low four bits are 0 and has a next block from 0x80 on |
| HeapTable.LiveDisjoint | src/memory/heap/heap.c:110-133 | in a table that encodes a set of allocations no block belongs to two of them; the FIRST bit alone keeps them apart |
| HeapTable.CoveredIsTaken | src/memory/heap/heap.c:57-60 | a block is free exactly when no live allocation covers it, and a free block's byte is 0 |
| HeapTable.DecodesUniquely | src/memory/heap/heap.c:110-133 | a byte table encodes at most one set of allocations |
| HeapTable.SameTable | src/memory/heap/heap.c:110-133 | two tables of one size that encode the same allocations are equal byte for byte |
| HeapTable.StartBlockUnique | src/memory/heap/heap.c:63-101 | the search result is determined: lowest fit, else no memory if the last block is taken, else the start of the trailing free run |
| HeapTable.FirstFitExactly | src/memory/heap/heap.c:63-101 | for n blocks the answer is the lowest run of n bytes with low bits 0; without one, no memory if the last byte is taken, else the start of the free bytes at the end, which are fewer than n |
| HeapTable.OverrunExactly | src/memory/heap/heap.c:95-100 | the range found lies inside the table if and only if the request has at most one block, fits somewhere, or the last block is taken; then it is free |
| HeapTable.OverrunExample | src/memory/heap/heap.c:95-100 | with only the last of two blocks free, a search for two answers with it and the range sticks out |
| HeapTable.SingleBlockSearch | src/memory/heap/heap.c:63-101 | a search for one block fails exactly when every block is taken, with no memory, and otherwise finds a free one |
| HeapTable.MarkKeepsDecoding | src/memory/heap/heap.c:110-133 | marking a free range adds exactly one allocation, apart from all live ones |
| HeapTable.ChainEndsWithAllocation | src/memory/heap/heap.c:179-195 | following HAS_NEXT from any block of an allocation stops exactly where the allocation ends |
| HeapTable.FreeKeepsDecoding | src/memory/heap/heap.c:179-201 | freeing a live pointer clears that allocation's blocks, no others, and leaves an encoding of the rest |
| HeapTable.FreeDecodesExactly | src/memory/heap/heap.c:179-201 | freeing from any block of the table leaves an encoding of allocations if and only if the block is free or the start of a live allocation |
| HeapTable.FreeUndoesMark | src/memory/heap/heap.c:136-201 | free right after malloc restores the table byte for byte |
| HeapTable.FreeEachKeepsDecoding | src/memory/heap/heap.c:179-201 | freeing distinct live pointers in any order removes just those allocations |
| HeapTable.FreeingAllEmptiesTable | src/memory/heap/heap.c:179-201 | freeing every live pointer once, in any order, leaves the all-free table |
| HeapTable.SinglesKeepDecoding | src/memory/heap/heap.c:136-149 | blocks taken one at a time are distinct, belonged to no live allocation, and each lowers the number of free blocks by one |
| HeapTable.MarkTakesBlocks | src/memory/heap/heap.c:110-133 | an allocation of n blocks lowers the number of free blocks by n |
| HeapTable.FreeReturnsBlocks | src/memory/heap/heap.c:179-201 | freeing raises the number of free blocks by the allocation's size |
| HeapTable.BlocksCoverSize | src/memory/heap/heap.c:152-170 | the blocks reserved cover the request exactly when rounding up does not wrap, none is wasted, and none is reserved only for size 0 or a wrap |
| HeapTable.HeapStepKeepsDecoding | src/memory/heap/heap.c:136-201 | every malloc and free keeps the encoding; a new allocation covers its size, lies in the table and overlaps no live one |
| HeapTable.HeapRunsDecode | src/memory/heap/heap.c:136-201 | over every run of mallocs and frees the table encodes exactly one set of pairwise disjoint allocations |
| HeapTable.RunsConserveTable | src/memory/heap/heap.c:136-201 | a run that ends with the allocations it began with ends with the same table |
| KernelHeap.Heap.Create | src/memory/heap/heap.c:8-54 | succeeds exactly for aligned ends and a matching table, which then is all free; otherwise the table is untouched |
| KernelHeap.Heap.GetStartBlock | src/memory/heap/heap.c:63-101 | the loop finds exactly the specified start block for every table and every request, zero blocks included |
| KernelHeap.Heap.MarkBlocksTaken | src/memory/heap/heap.c:110-133 | the loop writes FIRST at the head, HAS_NEXT on all but the last block, and nothing outside the range |
| KernelHeap.Heap.Malloc | src/memory/heap/heap.c:136-170 | performs one malloc step of the run model and returns the address of its first block, or 0 with nothing changed |
| KernelHeap.Heap.MarkBlocksFree | src/memory/heap/heap.c:179-195 | the loop clears from the given block to the end of its chain or of the table |
| KernelHeap.Heap.Free | src/memory/heap/heap.c:173-201 | performs one free step of the run model: the pointer's allocation goes, the rest stays |
| Words.OrWordBit | src/memory/paging/paging.c:28-33 | every bit of a word or-ed with another is set if and only if it is set in one of them |
| Words.FlagsAdd | src/memory/paging/paging.c:28-33 | or-ing flags below 4096 into a page-aligned address adds them |
| Words.FlagsMaskOffTwice | src/memory/paging/paging.c:53-54 | masking with 0xfffff000 recovers a table address from a directory entry flagged twice |
| AddressSpaces.MapRangeExact | src/memory/paging/paging.c:122-138 | after mapping n pages the k-th page from the start holds the k-th frame with the flags, around the 4 GB wrap, and every other page its old entry |
| AddressSpaces.MapRangeFrame | src/memory/paging/paging.c:122-138 | range mapping writes to no block but the tables of its own directory |
| AddressSpaceRuns.NewSafe | src/memory/paging/paging.c:12-39 | a new directory shares no block with an existing one and disturbs no translation |
| AddressSpaceRuns.DropSafe | src/memory/paging/paging.c:48-60 | freeing a directory keeps the invariant and every other directory's translation |
| AddressSpaceRuns.StepSafe | src/memory/paging/paging.c:12-205 | every step (build, set, map, free, other heap traffic, stores to other memory) keeps the invariant and all translations but its target's |
| AddressSpaceRuns.RunKeepsInv | src/memory/paging/paging.c:12-205 | over every run the heap decodes, directories link to their own tables, and no block is shared |
| AddressSpaceRuns.Separation | src/memory/paging/paging.c:12-205 | over any stretch of any run an address space that is not itself the target keeps the entry of every page, and shares no block with another |
| AddressSpaceRuns.NewThenDrop | src/memory/paging/paging.c:12-60 | the 1026 blocks taken, freed in the order of the teardown, restore the heap table |
| AddressSpaceRuns.BuildAndDropIsNeutral | src/memory/paging/paging.c:12-60 | building takes exactly 1026 blocks, and teardown after any sequence of sets and mappings restores the heap table byte for byte |
| Paging.Memory.Set | src/memory/paging/paging.c:182-205 | changes exactly the entry of the addressed page, found through the directory's own words; rejects unaligned addresses unchanged |
| Paging.Memory.Get | src/memory/paging/paging.c:171-179 | returns the page's entry; an unaligned address reads page 0's |
| Paging.Memory.GetPhysicalAddress | src/memory/paging/paging.c:207-212 | the frame of the address's page plus the offset in the page |
| Paging.Memory.Map | src/memory/paging/paging.c:110-119 | sets one page's entry to frame and flags, or rejects unaligned addresses unchanged |
| Paging.Memory.MapPages | src/memory/paging/paging.c:122-138 | the loop maps exactly the specified range; a count of 0 or less does nothing |
| Paging.Memory.MapTo | src/memory/paging/paging.c:140-168 | fails exactly for unaligned addresses or an end below the start, unchanged; otherwise maps the whole range |
| Paging.Memory.MapToIsStep | src/memory/paging/paging.c:140-168 | such a call is a mapping step of the run model and keeps its invariant |
| PageDirectories.Memset0 | src/memory/memory.c:4-12 | byte by byte from the given block on: the first size bytes are 0, all others what they were |
| PageDirectories.Kzalloc | src/memory/heap/kernel_heap.c:34-43 | one malloc step, and if it succeeds the first size bytes from its block on are 0 and all others what they were |
| PageDirectories.New4Gb | src/memory/paging/paging.c:12-39 | with 1026 free blocks, one build step of the run model: first-fit blocks, identity tables, a directory naming them with the words of Translation.DirectoryWords, a chunk naming the directory |
| PageTeardown.Free4Gb | src/memory/paging/paging.c:48-60 | one teardown step of the run model: table addresses recovered from directory entries, exactly the space's blocks freed |
| Translation.FreshIsIdentity | src/memory/paging/paging.c:12-39 | after a build every address translates to itself and every page's entry is its address plus the flags |
| Translation.DirectoryWords | src/memory/paging/paging.c:33 | word i of a fresh directory is the address of table i plus the flags, with the write bit set in any case |
| Translation.ProcessorWalk | src/memory/paging/paging.c:75-88 | the entry of an address is found as the processor does: its top ten bits choose the directory word, the next ten the word of the table that this one names |
| Translation.MapToExact | src/memory/paging/paging.c:140-168 | a successful paging_map_to gives each page of the range its frame and flags and leaves all other pages |
| Translation.MappedPageTranslates | src/memory/paging/paging.c:207-212 | with flags below 4096 an address on a mapped page translates to the frame plus its offset |
| Translation.RestoringEntry | src/task/task.c:153-160 | setting the old entry of a remapped page again restores all of memory |
| ProcessImage.MapElf | src/task/process.c:238-262 | maps the segments in order, stopping with an error at the first whose end lies below its start |
| ProcessImage.MapBinary | src/task/process.c:231-236 | maps a flat binary at the program address, or rejects it unchanged |
| ProcessImage.MapMemory | src/task/process.c:264-290 | maps the program and, if it was accepted, the stack |
| ProcessImage.SegmentsMapped | src/task/process.c:238-262 | in a well-formed image every byte of a segment whose address and file offset agree within the page translates to its byte of the file, on a page with the flags 7 if PF_W is set and 5 if not |
| ProcessImage.SegmentMappedExactly | src/task/process.c:248-257 | the bytes of a segment translate to its bytes of the file, with these flags, if and only if its address and file offset agree within the page |
| ProcessImage.StackMapped | src/task/process.c:287-289 | every address from 0x3fb000 to 0x3fefff translates into the stack memory, on a page with the flags 7 |
| ProcessImage.OnStackExactly | src/task/process.c:287-289 | the stack's pages are 0x3fb to 0x3fe |
| ProcessImage.OnSegmentExactly | src/task/process.c:247-257 | the pages of a segment are exactly those its bytes lie on |
| ProcessImage.RefusedElf | src/task/process.c:247-285 | a refused ELF file leaves the segments in front of the first rejected one mapped and nothing else, no stack |
| ProcessImage.OtherPagesKept | src/task/process.c:264-290 | for an ELF image or a flat binary, every page of no segment and not of the stack keeps its entry |
| ProcessImage.OutsideIsIdentity | src/task/process.c:264-290 | in a process with a fresh directory every address outside its program, of either kind, and its stack still translates to itself |
| ProcessImage.BinaryMapped | src/task/process.c:231-236 | every byte of a page-aligned flat binary is mapped from 0x400000 on, on a page with the flags 7 |
| ProcessImage.ImageIsPrivate | src/task/process.c:264-290 | mapping any program keeps the kernel's invariant and every other address space's translation |
| TaskMemory.BorrowPage | src/task/task.c:139-170 | whatever the outcome, every page of every address space ends with the entry it had; errors leave the whole state unchanged; on success the buffer is allocated and holds the copy |
| TaskMemory.CopyThroughPage | src/task/task.c:152-160 | the buffer's page is mapped to itself for the copy, which arrives in the buffer's block, and then restored: nothing else changes |
| TaskMemory.WriteThrough | src/task/task.c:153-157 | a store by the task needs the page present, writeable and for user programs, and goes to the frame its directory names |
| TaskMemory.KzallocSafe | src/memory/heap/kernel_heap.c:34-43 | a zeroed allocation disturbs no address space |
| DiskStreams.DiskStream.Read | src/disk/streamer.c:30-69 | for every position and total, negative totals of the recursion included: delivers exactly the stated contiguous bytes, changes nothing else, and ends at the stated position |
| DiskStreams.StreamExactly | src/disk/streamer.c:30-69 | a read is whole if and only if it starts on a sector boundary or ends by the end of its sector, and ends in step if and only if it starts on one or stops short of the end; otherwise it delivers and ends short by the place in the sector |
| FatChains.FollowFurther | src/fs/fat/fat16.c:293-333 | walking n + m links is walking n and then m |
| FatChains.FollowPrefix | src/fs/fat/fat16.c:293-333 | a chain that reaches a cluster reaches every earlier one |
| FatChains.ChainBytesAt | src/fs/fat/fat16.c:335-374 | one pass along the chain yields, at every index, the byte that walking from the start finds |
| FatLayout.EntryIsHeld | src/fs/fat/fat16.c:258-290 | if the sectors behind the reserved ones hold a sequence of 16-bit entries, low byte first, the entry read for a cluster is the one held for it |
| FatLayout.FollowIsWalk | src/fs/fat/fat16.c:293-333 | the chain followed is the walk in these entries, ending at 0, 0xff0, 0xff6, 0xff7, 0xfff8 and 0xffff |
| FatLayout.ClusterByte | src/fs/fat/fat16.c:253-256 | cluster 2 begins at the sector where the root directory ends, cluster c lies c - 2 times the sectors of a cluster behind it |
| FatLayout.FileByte | src/fs/fat/fat16.c:293-348 | byte i of a file, given by the FAT's entries, sector numbers and places in sectors |
| FatReads.ReadSources | src/fs/fat/fat16.c:335-374 | for every offset and length: an error exactly when the walk meets a stop value, else each byte of the request is the byte at its stated disk position (or left alone), and nothing outside the request changes |
| FatReads.ReadExactly | src/fs/fat/fat16.c:335-374 | a read takes every byte from where the file has it if and only if its clusters exist and it starts on a cluster boundary, or is in step with the sectors and its clusters lie in a row on the disk |
| FatReads.OneByteIsWhole | src/fs/fat/fat16.c:335-374 | reading one byte is right from every offset whose cluster exists |
| FatReads.WholeRead | src/fs/fat/fat16.c:335-374 | such a read succeeds and its part of the buffer holds the file's bytes |
| FatReads.AlignedRead | src/fs/fat/fat16.c:335-374 | from a cluster-aligned offset: an error exactly when a needed cluster lies beyond a stop value, else every byte of the request is the file's, and nothing outside it changes |
| FatReads.WholeReadIsSlice | src/fs/fat/fat16.c:335-374 | such a read, aligned or not, is the slice [offset, offset + total) of the joined cluster chain |
| FatReads.AlignedReadIsSlice | src/fs/fat/fat16.c:335-374 | a successful aligned read is the slice [offset, offset + total) of the joined cluster chain |
| FatStops.StopsDiffer | src/fs/fat/fat16.c:304-327 | the code stops and the specification does not exactly at 0xff0, 0xff6 and 0xff7; the other way round exactly at 0xfff7 and 0xfff9 to 0xfffe |
| FatStops.ChainsAgreeExactly | src/fs/fat/fat16.c:293-333 | the clusters reached in up to n links are those of the specification if and only if no entry met on the walk is one of these |
| FatMount.Mounter.Resolve | src/fs/fat/fat16.c:140-187 | reads the header through the stream and finds the volume that the boot sector's fields describe, none without the signature |
| FatMount.Mounted | src/fs/fat/fat16.c:94-107 | for every boot sector, by its bytes: FAT behind the reserved sectors, clusters behind these, all copies of the FAT and just enough sectors for the root items |
| FatExamples.UnalignedReadFails | src/fs/fat/fat16.c:351 | a volume that mounts, with a file of which a read from the middle of a cluster succeeds with a 513th byte that is not the file's |
| FatExamples.FileCutShort | src/fs/fat/fat16.c:310-314 | a volume that mounts, with a file whose second cluster is 0xff7 and cannot be read there |
| FatExamples.FileReadPastItsEnd | src/fs/fat/fat16.c:303-329 | a volume that mounts, with a file that ends with 0xfff9 and is read past its end |
| Fat16.FatReader.GetFatEntry | src/fs/fat/fat16.c:263-290 | decodes the little-endian entry for every cluster, sector offset 510 included |
| Fat16.FatReader.GetClusterForOffset | src/fs/fat/fat16.c:293-333 | the cluster reached from the start, or an error exactly when a stop value comes first |
| Fat16.FatReader.ReadInternal | src/fs/fat/fat16.c:335-381 | leaves result and buffer exactly as the chunk-by-chunk reader on values does |
| Fat16.FatReader.Read | src/fs/fat/fat16.c:599-620 | returns nmemb and advances, or an error and stays, exactly when an item's walk meets a stop value; each byte of every item comes from its stated position, and each item that is whole by the FAT, aligned or not, is the file's; aligned reads fail exactly when a needed cluster is missing |
| FatNames.GetFullName | src/fs/fat/fat16.c:190-224 | the name up to its first blank, and a dot and the extension if there is one |
| FatNames.CompareNames | src/string/string.c:122-142 | 0 exactly for strings equal but for the case of letters |
| FatRecords.TrimmedExactly | src/fs/fat/fat16.c:190-209 | a field's text is its part in front of the first zero or blank |
| FatRecords.NameOfRecord | src/fs/fat/fat16.c:212-224 | a record with a stem and an extension padded with blanks has the name stem, dot, extension, and no dot without extension |
| FatRecords.NameExactly | src/fs/fat/fat16.c:212-224 | a padded record has a name if and only if its eleven bytes are those of the name |
| FatRecords.LettersAlike | src/string/string.c:4-12 | two bytes are alike if and only if they are equal or a letter and its capital |
| FatRecords.NamesAlike | src/string/string.c:122-142 | names are alike if and only if they are of one length and alike byte for byte |
| FatRecords.DirectoryBit | src/fs/fat/fat16.c:466-475 | a record is a directory if and only if the bit of value 16 of byte 11 is set |
| FatRecords.ClusterBytes | src/fs/fat/fat16.c:247-250 | a record's first cluster is a number if and only if bytes 26, 27, 20 and 21 are its bytes, lowest first |
| FatNames.FindLastIs | src/fs/fat/fat16.c:482-496 | nothing is found exactly when nothing matches; otherwise the last match is |
| FatNames.FindIsMatch | src/fs/fat/fat16.c:482-496 | with unique names a record that matches is the one found |
| FatDirectories.RecordsComplete | src/fs/fat/fat16.c:50-92 | the records taken are all those before the end marker if and only if none of them is deleted |
| FatDirectories.DeletedHidesLive | src/fs/fat/fat16.c:80-85 | a directory of a deleted and a live record, of which the deleted one is taken and the live one not |
| FatDirectories.CountingEndsExactly | src/fs/fat/fat16.c:69-88 | the counting loop ever reads an end marker if and only if one of the first 16 records is one |
| FatDirectories.FullSectorNeverEnds | src/fs/fat/fat16.c:69-88 | in a directory of 16 live records no record the counting loop ever reads is an end marker |
| FatDirectories.DirectoryReader.CountItems | src/fs/fat/fat16.c:50-92 | where the loop ends, it counts the records before the end marker that are not deleted |
| FatDirectories.DirectoryReader.LoadRoot | src/fs/fat/fat16.c:94-137 | the records of the root directory as they lie on the disk |
| FatDirectories.DirectoryReader.LoadDirectory | src/fs/fat/fat16.c:414-459 | a subdirectory's records as they lie on the disk |
| FatDirectories.DirectoryReader.NewItem | src/fs/fat/fat16.c:461-480 | a loaded directory or a file, by the attribute |
| FatDirectories.DirectoryReader.FindItem | src/fs/fat/fat16.c:482-496 | the item of the last record with the name, if any |
| FatDirectories.DirectoryReader.GetDirectoryEntry | src/fs/fat/fat16.c:498-526 | the item a walk down the tree of directories reaches, part by part; none if the last is missing or an earlier one is a file |
| FatPaths.FindsEntry | src/fs/fat/fat16.c:482-496 | without deleted records and equal names the search finds exactly the entry of the directory on the disk that matches |
| FatPaths.WalkIsTrail | src/fs/fat/fat16.c:498-526 | where every directory on the way is such, the walk returns an item if and only if a trail of entries on the disk, one a part, each matching and listed in the directory before it, leads to it |
| FatPaths.WalkIgnoresCase | src/fs/fat/fat16.c:482-526 | a path written in other letter case leads to the same item |
| Tokenising.SpansAreRuns | programs/stdlib/src/string.c:162-222 | a span is a token's if and only if it is a maximal run without delimiters |
| Tokenising.SpansInOrder | programs/stdlib/src/string.c:162-222 | tokens come in the order of the string, apart from each other |
| Tokenising.SpanText | programs/stdlib/src/string.c:162-222 | there are as many tokens as spans and each is the text of its span |
| Tokenising.FirstToken | programs/stdlib/src/string.c:162-222 | the tokens are the first one and the tokens of what is behind its delimiter |
| Tokenising.TokensOfJoin | programs/stdlib/src/string.c:162-222 | splitting a join of non-empty words without the separator gives the words back |
| Strings.Strncpy | programs/stdlib/src/string.c:61-75 | the destination is terminated and holds the source string cut to count - 1 characters |
| Strings.Tokenizer.Strtok | programs/stdlib/src/string.c:161-222 | with the cursor winning over the argument: the first token, cut off in place, and the cursor on what is behind it; at the end null and a null cursor |
| CommandLine.ParseCommand | programs/stdlib/src/simpos.c:5-58 | a chain of nodes holding, in order, the space-separated words cut to 511 characters, as many as allocations succeed, and a null cursor if all do |
| CommandLine.CommandRoundTrip | programs/stdlib/src/simpos.c:5-58 | words shorter than 512, joined by spaces within 1024 characters, are the words parsed and are not cut |
| ReadLine.ReadTerminalLine | programs/stdlib/src/simpos.c:60-104 | the buffer holds, terminated, the line that the keys edit; behind it there are zeros or what was there, and nothing behind the limit is written |
| ReadLine.EditIsText | programs/stdlib/src/simpos.c:72-104 | a line holds no zero and no enter, a backspace at most as its first character, and never more than fits |
| ReadLine.EditFurther | programs/stdlib/src/simpos.c:72-104 | more keys continue from the line as it stands, unless it is done |
| ReadLine.BackspaceStoredExactly | programs/stdlib/src/simpos.c:93-100 | a line holds a backspace if and only if one was typed on the empty line and the line has not been empty since |
| ReadLine.StoredBackspace | programs/stdlib/src/simpos.c:93-100 | typing backspace and enter leaves a line of one backspace |
| ReadLine.BackspaceUndoesExactly | programs/stdlib/src/simpos.c:93-98 | backspace undoes a key, whatever follows, if and only if the key did not fill the line |
| ReadLine.CorrectionAnywhere | programs/stdlib/src/simpos.c:72-104 | a key taken back at once changes the final line nowhere in the input, while there is room |
| ReadLine.PlainLine | programs/stdlib/src/simpos.c:72-104 | characters typed and then enter are the line, cut to its size |
| ReadLine.TypedCommand | programs/shell/src/shell.c:12-15 | words typed with spaces between them are the words the command is split into |
| PathParser.PartsOfJoin | src/fs/pparser.c:48-109 | slash-joined parts come back, with or without a slash at the end |
| PathParser.ParsePart | src/fs/pparser.c:48-109 | one part and two blocks if the part is not empty and two blocks are free; otherwise no block is kept |
| PathLists.ParsePath | src/fs/pparser.c:133-194 | drive and linked parts, as many as there are blocks for, holding exactly one block for the root and two a part; null exactly for a bad format, no part, or too few blocks, with the heap as it was |
| PathLists.FreePath | src/fs/pparser.c:112-130 | frees every block of a parsed path and restores the heap table from before the parse byte for byte |
| PathLists.EmptyPartEnds | src/fs/pparser.c:48-109 | two slashes in a row end the path |
| PathLists.PathRoundTrip | src/fs/pparser.c:133-194 | digit, ":/", joined parts and an optional slash parse to that digit and those parts |
| PathLists.SeparatorUnchecked | src/fs/pparser.c:10-16 | any two characters behind the digit, short of the end of the string, are accepted in place of ":/" |
| Itoa.Itoa | programs/stdlib/src/stdlib.c:5-38 | for every 32-bit integer the text up to the terminator is its numeral, written inside the 12-byte buffer |
| Itoa.NumeralExactly | programs/stdlib/src/stdlib.c:5-38 | a string is the numeral of i if and only if it is canonical (no leading zeros, minus only if negative) and worth i |
| Itoa.ItoaRoundTrip | programs/stdlib/src/stdlib.c:5-38 | reading the numeral back gives the integer, INT_MIN included, and it leaves room for the terminator |
| Keyboard.KeyboardBuffer.Push | src/keyboard/keyboard.c:65-81 | the new ring, counters wrapping at 2^32; a zero is ignored |
| Keyboard.KeyboardBuffer.Pop | src/keyboard/keyboard.c:84-104 | the character at the head and the new ring, or zero and no change |
| Keyboard.KeyboardBuffer.Backspace | src/keyboard/keyboard.c:57-62 | the ring with its tail moved back and the slot cleared |
| Keyboard.PushSeenExactly | src/keyboard/keyboard.c:65-104 | some later run within the bounds pops other than what a queue with the new character would give if and only if 1024 characters were waiting |
| Keyboard.FullPushLosesOldest | src/keyboard/keyboard.c:65-104 | after a push into a full buffer the pops give the new character, then all but the oldest, then nothing |
| Keyboard.PopQueues | src/keyboard/keyboard.c:84-104 | popping takes the oldest character; a zero means the queue is empty |
| Keyboard.BackspaceSeenExactly | src/keyboard/keyboard.c:57-104 | some later run within the bounds pops other than what a queue without its newest character would give if and only if nothing was waiting |
| Keyboard.StrayBackspaceLosesKey | src/keyboard/keyboard.c:57-104 | after a backspace on an empty buffer the next key pushed is not what the next pop returns |
| Keyboard.BackspaceUndoesPush | src/keyboard/keyboard.c:57-81 | backspace after a push restores the ring |
| Keyboard.RingRefinesQueue | src/keyboard/keyboard.c:41-104 | over every run within the bounds the pops return what a first-in first-out queue returns |
| TaskLists.Scheduler.New | src/task/task.c:78-113 | appends the task in any block not listed, one that held a task before included, keeps the forward links and the current task, and keeps the back links exactly as sound as they were |
| TaskLists.Scheduler.GetNext | src/task/task.c:26-34 | in a linked list, from the task at position k the one at position k + 1, counting around |
| TaskLists.Scheduler.WellLinkedIsRemovable | src/task/task.c:36-56 | in a list linked both ways any task can be removed soundly |
| TaskLists.Scheduler.Remove | src/task/task.c:36-56 | the forward list is the old one without the task if and only if its back link named the task before it (at the head: no later task, and null if it was alone); the current task stays listed; back links survive a removal if and only if it was at the tail |
| TaskRuns.CleanIsRemovable | src/task/task.c:36-56 | along a run, the back link is good enough exactly when, off the head, the task it was appended behind is still listed, and at the head, that task, if any, has left no block to a task now listed and the list does not become empty |
| TaskRuns.Perform | src/task/task.c:36-113 | along every run of creations, in any blocks the allocator may answer with, and removals the list stays forward linked if and only if every removal is of that kind |
| TaskRuns.PerformAll | src/task/task.c:36-113 | the same for every run from the empty list |
| TaskRuns.TailRunsAreClean | src/task/task.c:36-113 | a run that only ever removes the last task keeps the list linked, whatever blocks are handed out |
| TaskRuns.StaleLink | src/task/task.c:36-56 | of three tasks the second and then the third removed: the list still leads to the third |
| TaskRuns.ReusedBlock | src/task/task.c:36-113 | the head removed, its block used for a fourth task, a fifth appended, the new head removed: the list goes round two tasks and never comes to the fifth |
| TaskLists.Scheduler.VisitedAt | src/task/task.c:26-34 | step j from position k reaches position k + 1 + j around the list |
| TaskLists.Scheduler.RoundRobin | src/task/task.c:26-34 | from any task, as many steps as there are tasks visit each of them once and end where they began |

## Left out

- KernelHeap.Heap.Malloc: asks that marking does not run over the table's end; outside that the C code writes past the table. `HeapTable.OverrunExactly` says when that is, for every table and request.
- KernelHeap.Heap.Free: a pointer that is not the start of a live allocation; such a call clears blocks of another allocation or writes outside the table.
- PageDirectories.New4Gb: asks for 1026 free blocks, because the C code uses the results of kzalloc unchecked.
- PageDirectories.Kzalloc: sizes above 0xfffff000, which round up to no block and would then be zeroed over all of memory.
- TaskMemory.BorrowPage: the characters of the string (what the copy makes of the buffer is a parameter), the second copy into the kernel's buffer, the CR3 switches, a negative limit, and the -EIO branch, which an aligned buffer never reaches.
- DiskStreams.DiskStream.Read: positions and totals whose sum reaches 2^31 - 512, and failing sector reads; the disk is a total function from sector to contents.
- Fat16.FatReader.Read: positions from 2^31 on, where the C int is negative.
- Fat16.FatReader.ReadInternal: offsets whose end reaches 2^31.
- Fat16.FatReader.GetClusterForOffset: offsets from 2^31 on, where the C int is negative and no link is walked.
- FatDirectories.DirectoryReader.CountItems: directories whose end marker is not among their first 16 records; the loop does not end there, as `FatDirectories.CountingEndsExactly` says.
- FatDirectories.DirectoryReader.LoadRoot: sizes the records by the count; a root directory with fewer entries than records before the end marker is left out.
- FatDirectories.DirectoryReader.LoadDirectory: empty subdirectories, which allocate zero bytes, and failing allocations.
- FatDirectories.DirectoryReader.GetDirectoryEntry: a missing component in the middle of a path, which the C code dereferences as null, and the freeing of the items passed on the way.
- FatNames.FindIsMatch: duplicate names; `FatNames.FindLastIs` covers them.
- CommandLine.ParseCommand: the argument of a node is the string its buffer holds, and simpos_malloc is the number of calls that will succeed. After a failed allocation the cursor stays behind in the local copy of the command, whose stack frame is gone at the next call; the model has it still hold its text.
- ReadLine.ReadTerminalLine: the echo of keys on the terminal, and keys that never complete a line, where the call waits for ever.
- PathLists.ParsePath: parts of 108 characters or more, which overflow their block's string, and paths that start with a digit but are shorter than the three characters skipped; a part's characters are a string, not bytes of its block.
- Keyboard.KeyboardBuffer.Push: the check for a current process.
- Keyboard.KeyboardBuffer.Pop: the check for a current task.
- TaskLists.Scheduler.New: the search for the block, which is a parameter, task_init with its page directory and registers, and the failure path that frees the task.
- TaskLists.Scheduler.Remove: what a write through a stale back link does to a freed block that holds no task.
- task_switch, which sets the current task and loads its page directory.
- TaskLists.Scheduler.GetNext: a null current task, which the C code dereferences.
- Memory is modelled as the words of heap blocks; other physical memory, and the C layout of structures in it, is not.
- The ELF loader's header checks, the choice of a process slot and the loading of files into memory.
- process_malloc and process_free: the table of a process's allocations does not hold every live allocation in this code.
- fopen, fread and fclose at the file-system switch, seek and stat.
- The terminal, printf, the shell's loop, system call dispatch, interrupt entry, GDT, IDT and TSS packing, port input and output, and all assembly.
