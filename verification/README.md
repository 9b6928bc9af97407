# FuseeOS in Dafny

FuseeOS is a small x86-64 operating system. This project models its stateful cores and proves
what they keep over every run:

- **Miaou File System.** The writer of `tools/mkvolume.c` (bump allocator with bitmap pages, files
  of 16 direct pages and an indirect page, directories of variable-length records, insertion by
  path) and the bootloader's independent reader, `src/boot/bootloader/mfs.c`. The writer refines a
  tree from paths to bytes; the reader gets back what the writer stored.
  `Bytes`, `MfsFormat`, `MfsDir`, `MfsTree`, `MfsVolume`, `MfsBuilder`, `MfsCopy`, `Mkvolume`,
  `MfsReader`; `MfsLayout` says where things are on the disk.
- **Four-level page tables** (section 4.5, "4-level paging", of the Paging chapter of the Intel SDM
  volume 3A). `PageTables` has the hardware walk and the invariant that the tables form an unshared
  tree; `PageIter` the resumable iterator of `src/kernel/mem/mmap.c`; `Mmap` the kernel's map, unmap
  and protect; `BootAlloc` the bootloader's mapper, `src/boot/bootloader/alloc.c`; `Words` relates
  machine words to numbers.
- **Physical page allocator**, `src/kernel/mem/alloc_page.c`. `Bitmap` (bits of bytes and words),
  `Buddy` (one block and its eight orders), `PhysAlloc` (the allocator); `Mem` has the page size.
- **Kernel heap**, `src/kernel/mem/kmalloc.c`. `Heap`.
- **Scheduler**, `src/kernel/proc.c` over `src/kernel/common/array.c`. `GrowableArray`, `Scheduler`.
- **Initial ramdisk**, `tools/mkinitram.c`, `src/libboot/initram.c` and the list parser
  `tools/spec_parser.c`. `Initram`, `SpecParser`, `Mkinitram`.

Code that changes state is a class whose methods follow the C bodies, with the same branches, loops
and constants; what the methods compute is stated with functions, and what those mean is proved in
lemmas. Ghost fields hold what the code knows only implicitly: the owner of each page, the bytes of
each file, the place of each table, the chain of heap blocks, the pages that are out.

Six places where the code does less than one might expect are stated exactly rather than assumed
away. Each has an if-and-only-if and a concrete input:

- `find_file_dir` accepts a stored name that is a prefix of the query, so a copy can land in another
  directory than asked, or append its record to the bytes of a file: `MfsTree.LandsWhereAskedIff`
  and `MfsTree.RunLandsIff` with `MfsTree.PrefixCapture`, `MfsCopy.FilesKeptIff` with
  `MfsTree.FileCapture`.
- The buddy check of `mark_page_free` shifts by the offset in the whole bitmap, not in the byte:
  `Buddy.WrittenCoversIff`, `Buddy.WrittenClearsParentOfTaken`. A 32-bit shift by 32 or more is
  undefined in C; the model takes what x86 does, the count modulo 32.
- `page_iter_next` visits all the pages of its range only for regular ranges:
  `PageIter.IteratesExactlyIffRegular`, `PageIter.SkipsSecondTable`. `PageIter.VisitsExactly` says
  which pages it visits otherwise; the mapper is stated for those.
- The heap passes on ranges that are not regular, so a block can lie on a page that is not mapped
  and a page can stay mapped beyond the end: `Heap.GrowthExactIff`, `Heap.CutExactIff`,
  `Heap.GrowsPastTable`, `Heap.CutsPastTable`.
- A list that ends in a line feed is read with one spurious record more: `SpecParser.RoundTripIff`,
  `SpecParser.TrailingLineFeed`.
- A ramdisk name that has an earlier name as a prefix finds that file: `Initram.FindsOwnFileIff`,
  `Initram.FindsShorterName`.

## Model

| member | source | states |
|---|---|---|
| `MfsFormat.AllocStep` | tools/mkvolume.c:40-55 | the page the bump allocator hands out is unowned, zero and no bitmap page; afterwards exactly the owned pages have their bitmap bit, and only bitmap pages changed |
| `MfsFormat.LinkDirectOk` | tools/mkvolume.c:69-77 | hanging a new page at a direct pointer keeps the whole volume invariant, gives the page one owner and index, and leaves every other file's pointers as they were |
| `MfsFormat.LinkIndirectOk` | tools/mkvolume.c:78-85 | the same for the indirect page, which changes no data page of any file |
| `MfsFormat.LinkEntryOk` | tools/mkvolume.c:86-92 | the same for a data page behind the indirect page |
| `MfsFormat.AppendOk` | tools/mkvolume.c:147-157 | copying a chunk to the page at the end of a file and growing its size makes the file's content grow by the chunk and no other content change |
| `MfsFormat.CreateOk` | tools/mkvolume.c:161-175 | a fresh header page adds one empty file under an unused non-zero inode and keeps everything else |
| `MfsFormat.OneRolePerPage` | tools/mkvolume.c:40-130 | in every sound volume a bitmap bit is set iff its inode lies in 1..next_inode and is no multiple of the group size, iff some file uses the page; and no page is used in two roles or by two owners |
| `MfsVolume.Volume.constructor` | tools/mkvolume.c:228-230 | an all-zero volume is sound and holds no file |
| `MfsVolume.Volume.AllocPage` | tools/mkvolume.c:40-55 | the method returns the next inode past bitmap pages and sets its bit |
| `MfsVolume.Volume.LinkDirectPage` | tools/mkvolume.c:72-76 | a missing direct page is allocated, linked and owned; nothing else changes shape |
| `MfsVolume.Volume.LinkIndirectPage` | tools/mkvolume.c:81-85 | a missing indirect page likewise |
| `MfsVolume.Volume.LinkEntryPage` | tools/mkvolume.c:86-92 | a missing page behind the indirect page likewise |
| `MfsVolume.Volume.PtrFromDataIndex` | tools/mkvolume.c:64-100 | succeeds iff the index is below 528; then the page exists, was allocated only if missing, at exactly the page cost stated, and no other index or file changed |
| `MfsVolume.Volume.StoreChunk` | tools/mkvolume.c:153-156 | copying a chunk at the end of the file appends exactly the chunk |
| `MfsVolume.Volume.WriteRound` | tools/mkvolume.c:144-157 | one round of the loop appends its chunk, or fails iff the file already has 528 full pages |
| `MfsVolume.Volume.FileWrite` | tools/mkvolume.c:132-159 | with `pos` at the end of the file: succeeds iff the result has at most 528 pages, and appends exactly the bytes, whatever the chunking, across the direct/indirect boundary, allocating exactly the pages needed |
| `MfsVolume.Volume.FileRead` | tools/mkvolume.c:102-130 | returns the bytes from `pos` up to the end asked for or the end of the file, and never allocates or changes a page |
| `MfsVolume.Volume.CreateFileRaw` | tools/mkvolume.c:161-175 | adds an empty file under the next inode, with the mode asked for and the four times of the volume |
| `MfsVolume.Volume.StampHeader` | tools/mkvolume.c:168-172 | only the new header page changes |
| `MfsTree.AddNodeWellFormed` | tools/mkvolume.c:177-216 | adding a directory or file below an existing directory, at a path not in use, keeps the tree well formed: every record leads to a node and back |
| `MfsTree.InsertExact` | tools/mkvolume.c:258-304 | a copy to a fresh path adds that one file and the missing directories above it, and nothing else; every record already in a directory stays |
| `MfsTree.InsertOrder` | tools/mkvolume.c:276-290 | a copy appends, to each directory on its way, the name that was not there, and leaves the order of all names as it was |
| `MfsTree.LandsWhereAskedIff` | tools/mkvolume.c:200-201 | a path walked by prefix search ends where it says if and only if at every directory the first record that is a prefix of the component is that component itself or there is none |
| `MfsTree.PrefixCapture` | tools/mkvolume.c:187-203 | after `a/x`, copying to `ab/y` lands in `a/y` |
| `MfsTree.FileCapture` | tools/mkvolume.c:280-287 | after the file `a`, copying to `ab/y` walks into the file `a` |
| `MfsTree.RunLandsIff` | tools/mkvolume.c:276-303 | in a run of copies to distinct paths, each copy lands at its own path if and only if, for each copy and each component but the last, the first name that earlier copies put in that directory and that is a prefix of the component is the component itself, or there is none |
| `MfsTree.RunHoldsExactlyTheJobs` | tools/mkvolume.c:258-304 | after a run of copies to distinct paths, in such an order, the tree holds exactly the copied files with their bytes, and every directory its names in the order of the copies |
| `MfsTree.PrefixFreeInOrder` | tools/mkvolume.c:200-201 | enough for that: at the component where the paths of two copies part, the earlier name is no prefix of the later |
| `MfsTree.ShorterNameLater` | tools/mkvolume.c:200-201 | not needed for that: after `ab/z` and then `a/x`, a copy to `ab/y` still meets `ab` first |
| `MfsDir.RecordAt` | tools/mkvolume.c:205-216 | record `k` of a directory file is the encoding of its `k`-th entry, at the offset found by stepping over the records before it |
| `MfsDir.DecodeEntry` | tools/mkvolume.c:198-201 | inode, name length and name read back from a record are those written |
| `MfsBuilder.AddNodeHolds` | tools/mkvolume.c:177-216 | a new inode plus one appended record is exactly one new node of the tree the volume holds |
| `MfsBuilder.FindFileDir` | tools/mkvolume.c:187-203 | returns the inode of the first record whose name is a prefix of the query, 0 when there is none, and changes nothing |
| `MfsBuilder.AppendDir` | tools/mkvolume.c:205-216 | appends exactly the record's bytes to the directory, or fails iff the directory would exceed 528 pages |
| `MfsCopy.EnterDir` | tools/mkvolume.c:280-288 | one component of the walk enters the directory the prefix search finds, or the one it creates |
| `MfsCopy.PathsMeant` | tools/mkvolume.c:270-290 | for components without slashes: with a slash in front, the components joined by slashes are copied to the path of exactly these components; without one just when the first is not empty or is the only one |
| `MfsCopy.NewDir` | tools/mkvolume.c:282-286 | adds exactly one empty directory to the tree, with the mode of a directory |
| `MfsCopy.WriteFile` | tools/mkvolume.c:292-302 | the chunks read from the source file become exactly its content, or it fails iff they exceed 528 pages |
| `MfsCopy.PlaceFile` | tools/mkvolume.c:291-303 | one new file with its bytes, and one record more in the file it is placed in; every other file keeps its bytes; fails iff one of the two would pass 528 pages; the new file has the mode of a file |
| `MfsCopy.CopyFile` | tools/mkvolume.c:258-304 | one copy adds the missing directories and one file at the place the prefix search leads to; every file that was there keeps its bytes iff the walk ends in a directory and not in a file; where the place was free the copy refines one insertion into the tree; it succeeds exactly when nothing grows past 528 pages, and takes exactly the pages stated |
| `MfsCopy.FilesKeptIff` | tools/mkvolume.c:280-303 | the files that were there keep their bytes iff the record is not appended to one of them; otherwise that file has grown by exactly that record |
| `MfsCopy.CopyNext` | tools/mkvolume.c:319-324 | one copy of a run: the volume holds the tree of one copy more, or the run does not fit |
| `MfsCopy.WriteMetadata` | tools/mkvolume.c:232-236 | writing the metadata page changes no other page |
| `MfsCopy.MakeVolume` | tools/mkvolume.c:218-238 | a new volume holds the empty tree; its metadata page has the magic, the version, the number of pages and the root |
| `Mkvolume.BuildVolume` | tools/mkvolume.c:306-323 | from the file list, read record by record, to the volume: it succeeds iff every file and directory fits, and then holds the tree of the run; with distinct paths in order, exactly the listed files: a record that names `/` and a path has its source file's bytes at that path; the metadata page is intact, and every header has the mode of its kind and the times of the volume |
| `Mkvolume.ListThenBoot` | tools/mkvolume.c:306-323 | end to end, from a printed list to the bootloader: with distinct paths in order, and the root and `boot` directories of at most a page, what is read back for the record that names `/boot/initram` is its source file's bytes, with zeros up to the end of the page |
| `MfsLayout.TreeOnDisk` | include/fusee/mfs.h:22-54 | byte by byte: the metadata page leads to the root, and of each file and directory the header has the size at offset 16 and leads, by 16 pointers from offset 56 and by 512 in the page named at offset 184, to the pages with its bytes |
| `MfsLayout.BitmapOnDisk` | tools/mkvolume.c:48-52 | page i is handed out just when bit i % 8 of byte i % 32768 / 8 of the page at the last multiple of 32768 is set |
| `MfsReader.WriterSatisfiesReader` | src/boot/bootloader/mfs.c:43-80 | every file of a volume the writer keeps sound is laid out as the reader expects, page by page |
| `MfsReader.SearchesAgreeIff` | src/boot/bootloader/mfs.c:28-32 | writer's prefix search and reader's exact search find the same record if and only if no earlier record is a prefix of the name |
| `MfsReader.Reader.LookupAt` | src/boot/bootloader/mfs.c:18-33 | for a present name in a one-page directory the search ends, at the first record with that very name |
| `MfsReader.Reader.LookupRoot` | src/boot/bootloader/mfs.c:35 | the same search from the root the metadata page names |
| `MfsReader.Reader.Read` | src/boot/bootloader/mfs.c:63-80 | reads back the file's bytes zero-padded to a page, for every length up to 528 pages |
| `MfsReader.Reader.ReadData` | src/boot/bootloader/mfs.c:53-61 | the first `count` direct pages in order |
| `MfsReader.Reader.ReadIdata` | src/boot/bootloader/mfs.c:43-51 | continues after them with the pages behind the indirect page |
| `MfsReader.InitramInit` | src/boot/bootloader/initram.c:4-18 | end to end: from a volume the writer built, the bootloader finds `boot/initram` and ends up with its size and its bytes, with zeros up to the end of the page |
| `PageTables.PathInjective` | src/boot/bootloader/alloc.c:35-41 | distinct 48-bit page addresses decompose into distinct index paths |
| `PageTables.FourLevels` | src/boot/bootloader/alloc.c:49-73 | a page translates to an entry just when four tables, indexed by nine bits of the address each, lead there by present entries that are no large pages; the frame of an entry is bits 12 to 62 |
| `PageTables.EmptyTree` | src/kernel/mem/mmap.c:98-105 | a cleared root is a tree of tables that maps nothing |
| `PageTables.SetLeaf` | src/kernel/mem/mmap.c:180-185 | storing a page-table entry keeps the tables an unshared tree and changes the translation of that one page, to what the entry says |
| `PageTables.LinkTableOk` | src/kernel/mem/mmap.c:170-179 | hanging a cleared frame below an absent directory entry keeps the tree, adds one table, and changes no translation |
| `PageTables.ClearFrame` | src/kernel/mem/mmap.c:98-105 | clearing a frame that is no table changes no translation |
| `PageIter.StepDirectories` | src/kernel/mem/mmap.c:44-73 | the first three calls report the directory entries on the way, each before it is descended through |
| `PageIter.StepTables` | src/kernel/mem/mmap.c:74-96 | every further call reports one page table, until the range is used up or the loop leaves its directory |
| `PageIter.VisitsExactly` | src/kernel/mem/mmap.c:13-96 | for any address and length the iterator ends, and reports the entries of exactly the first `Visited` pages of the range, in order, each once |
| `PageIter.VisitsAllIffRegular` | src/kernel/mem/mmap.c:21-25 | that is never more than the range, and all of it if and only if the range is regular |
| `PageIter.IteratesExactlyIffRegular` | src/kernel/mem/mmap.c:13-96 | the iterator ends, stays inside its tables, and reports the entries of exactly all the pages asked for in order, each once, if and only if the range is regular |
| `PageIter.SkipsSecondTable` | src/kernel/mem/mmap.c:24 | of pages 511 and 512 only page 511 is visited: two page tables are counted as one |
| `PageIter.OneTableRegular` | src/kernel/mem/mmap.c:21-25 | every range within one page table is regular |
| `PageIter.VisitedIsRegular` | src/kernel/mem/mmap.c:44-96 | where the walk stays inside its directory, the pages it visits are themselves a regular range, walked by the same calls |
| `PageIter.NextReport` | src/kernel/mem/mmap.c:44-96 | the calls give exactly the reports expected for the pages visited, and then end |
| `PageIter.ReportEntry` | src/kernel/mem/mmap.c:36-42 | every reported entry is on the way to, or is that of, a page of the range, and of which |
| `PageIter.PageIterator.constructor` | src/kernel/mem/mmap.c:13-29 | offsets and lengths as the pure iterator has them, starting at the root |
| `PageIter.PageIterator.Next` | src/kernel/mem/mmap.c:44-96 | the method on real tables steps as the pure iterator does, and holds the table at the path the pure one is at |
| `PageIter.PageIterator.Head1` | src/kernel/mem/mmap.c:75-90 | resuming at the head of the inner loop |
| `PageIter.PageIterator.Head2` | src/kernel/mem/mmap.c:65-93 | at that of the middle loop |
| `PageIter.PageIterator.Head3` | src/kernel/mem/mmap.c:55-95 | at that of the outer loop |
| `PageIter.PageIterator.Enter` | src/kernel/mem/mmap.c:57-63 | descends to the table below the current entry and reports its part of the range |
| `Mmap.Mmu.AllocZeroPage` | src/kernel/mem/mmap.c:98-105 | a free frame is taken and cleared; no translation and no other frame changes |
| `Mmap.Mmu.FreePhysPage` | src/kernel/mem/mmap.c:254 | a frame that is no table and not free becomes free |
| `Mmap.Mmu.EnsureTable` | src/kernel/mem/mmap.c:170-179 | afterwards the entry leads to a table, a new cleared one exactly when it was absent, entered as present, writable, user and executable |
| `Mmap.Mmu.EnsureTables` | src/kernel/mem/mmap.c:168-179 | the loop over a directory makes exactly the tables that were missing, empty, and changes no translation |
| `Mmap.PreservedOn` | src/kernel/mem/mmap.c:170-179 | what every operation keeps adds up over a walk: tables stay where they are, memory that is no table and was not taken is untouched, and directory entries are as they were or lead with all rights to a new table |
| `Mmap.Mmu.DirRun` | src/kernel/mem/mmap.c:166-179 | a directory round leaves the way to the next report clear, at exactly the cost of its missing tables |
| `Mmap.Mmu.NextRun` | src/kernel/mem/mmap.c:166 | the reports of the iterator come in order, on tables the walk has made, and end exactly when every page is done |
| `Mmap.Mmu.StoreLeaf` | src/kernel/mem/mmap.c:227 | one entry stored extends by one page the part of the range that is done |
| `Mmap.Mmu.KmapLeaves` | src/kernel/mem/mmap.c:223-229 | a page-table round maps its pages to consecutive frames |
| `Mmap.Mmu.AnonLeaf` | src/kernel/mem/mmap.c:181-184 | one page more is mapped to a cleared frame of its own |
| `Mmap.Mmu.AnonLeaves` | src/kernel/mem/mmap.c:180-185 | a page-table round maps its pages to fresh cleared frames |
| `Mmap.Mmu.PassDirectory` | src/kernel/mem/mmap.c:249 | a directory round of an unmap or protect changes nothing and may go on |
| `Mmap.Mmu.UnmapLeaf` | src/kernel/mem/mmap.c:253-255 | one page more is unmapped and its frame freed |
| `Mmap.Mmu.UnmapLeaves` | src/kernel/mem/mmap.c:251-256 | a page-table round unmaps its pages and frees exactly their frames |
| `Mmap.Mmu.ProtectLeaves` | src/kernel/mem/mmap.c:142-148 | a page-table round re-protects exactly its entries |
| `Mmap.Mmu.Kmap` | src/kernel/mem/mmap.c:193-235 | over numbers: page i of those visited has the frame at phys / 4096 * 4096 + 4096 i, as far as an entry can hold it, is writable iff bit 1 of the protection asked for is set, user iff bit 3, not executable iff bit 2 is clear, and nothing else; every other page as before; the tables stay an unshared tree; exactly the missing tables were taken, and no other memory changed; for the null address the range is one that `io_alloc` had not handed out |
| `Mmap.Mmu.KmapRange` | src/kernel/mem/mmap.c:208-231 | the loop of `kmap` |
| `Mmap.Mmu.IoAlloc` | src/kernel/mem/alloc_io.c:6-15 | address space of the size asked for, in whole pages, behind all that was handed out before |
| `Mmap.KmapFrame` | src/kernel/mem/mmap.c:225-228 | the entry stored for page i has that frame, is present, and gives exactly the rights asked for and nothing else |
| `Mmap.Mmu.Kmapanon` | src/kernel/mem/mmap.c:155-191 | the pages visited translate to pairwise distinct frames, taken from the free ones, still zero and no tables, with exactly the rights asked for (bits as for `Kmap`) and nothing else; every other translation and all other memory is kept; frames used: the pages plus exactly the missing tables |
| `Mmap.Mmu.Kunmapanon` | src/kernel/mem/mmap.c:237-261 | exactly the pages visited become unmapped and exactly their frames are freed; no other memory changes |
| `Mmap.Mmu.Kmprotect` | src/kernel/mem/mmap.c:126-153 | exactly the entries of the pages visited are re-protected: they give the rights asked for (bits as for `Kmap`) and keep every other bit |
| `Mmap.ProtectBits` | src/kernel/mem/mmap.c:133-147 | re-protecting keeps frame and presence of an entry |
| `Mmap.ProtectKeepsOtherBits` | src/kernel/mem/mmap.c:133-147 | ... and every bit but 1, 2 and, where the processor has it, 63 |
| `Mmap.ProtectSetsBits` | src/kernel/mem/mmap.c:112-124 | ... and makes the entry writable, user and executable exactly as asked for |
| `Mmap.Mmu.MapThenUnmap` | src/kernel/mem/mmap.c:155-261 | mapping and unmapping an unmapped range restores every translation and every leaf frame: the free count drops by exactly the tables created, and memory that was neither table nor free is untouched |
| `Words.PageStart` | src/kernel/mem/mmap.c:203 | clearing the low twelve bits of a word rounds its value down to a page |
| `Words.NextPage` | src/kernel/mem/mmap.c:228 | adding 4096 to a word adds 4096 to its value, short of the end of the word |
| `BootAlloc.PopRegion` | src/boot/bootloader/alloc.c:22-31 | taking the first page of the first region that has one takes the head of the list of free frames |
| `BootAlloc.FramesAt` | src/boot/bootloader/alloc.c:26-28 | the frames of a region are 4096 bytes apart, from its base on |
| `BootAlloc.LeadsOnIff` | src/boot/bootloader/alloc.c:52-57 | a directory entry leads on exactly when there is a table at the place below it, so one missing table is made once, however many pages need it |
| `BootAlloc.Boot.AllocPageHi` | src/boot/bootloader/alloc.c:18-33 | returns the first free frame, cleared, which is the start of the first region that has memory left and comes off that region alone; or 0 when none is left |
| `BootAlloc.Boot.NextTable` | src/boot/bootloader/alloc.c:51-58 | arrives at the table below the entry, made from the first free frame exactly when the entry was zero |
| `BootAlloc.Boot.NewTable` | src/boot/bootloader/alloc.c:53-57 | a cleared frame from the free list is hung below a zero entry; no translation changes |
| `BootAlloc.Boot.Descend` | src/boot/bootloader/alloc.c:51-58 | the same, in terms of the places at which there are tables |
| `BootAlloc.Boot.LeafTable` | src/boot/bootloader/alloc.c:51-72 | the three levels together make exactly the tables missing above the page |
| `BootAlloc.Boot.MapLeaf` | src/boot/bootloader/alloc.c:73 | one entry of the page table maps the page to the next free frame |
| `BootAlloc.Boot.DecomposeAddr` | src/boot/bootloader/alloc.c:35-41 | the four indices are the path of the page |
| `BootAlloc.Boot.MapSingle` | src/boot/bootloader/alloc.c:43-74 | one page is mapped to a cleared frame of its own; the frame and exactly the missing tables above it come off the free list; every other translation is kept |
| `BootAlloc.Boot.Valloc` | src/boot/bootloader/alloc.c:76-86 | exactly the pages of the range get distinct cleared frames that are no tables, each by an entry that is present and says nothing else; every other translation and all other memory is kept, and new tables are entered as present and writable; the free list shrinks by the pages plus exactly the tables that were missing |
| `BootAlloc.TouchedExactly` | src/boot/bootloader/alloc.c:79-84 | the pages mapped, for an unaligned address and size too, are exactly those with a byte of the range |
| `BootAlloc.BootLeafFrame` | src/boot/bootloader/alloc.c:73 | the stored entry has that frame and, besides, the present bit alone |
| `BootAlloc.MissingAfter` | src/boot/bootloader/alloc.c:83-84 | adding tables takes exactly their places off those still missing for a range |
| `Bitmap.AllOnes` | src/kernel/mem/alloc_page.c:118 | a word of all ones has every bit set, so skipping it misses no free page |
| `Bitmap.BuddyCheck` | src/kernel/mem/alloc_page.c:20 | the check as written passes iff the pair is clear or the shift has left the byte; with the in-byte offset, iff the pair is clear |
| `Bitmap.ClearedBit` | src/kernel/mem/alloc_page.c:17 | clears that bit of the byte and no other |
| `Bitmap.MarkedBit` | src/kernel/mem/alloc_page.c:47 | sets that bit and no other |
| `Bitmap.WordBitIs` | src/kernel/mem/alloc_page.c:112-122 | bit k of a little-endian 64-bit word is bit k % 8 of its byte k / 8 |
| `Buddy.FreeEffect` | src/kernel/mem/alloc_page.c:13-28 | marking free clears the page's bit, sets none, and at order 0 touches no other |
| `Buddy.UsedEffect` | src/kernel/mem/alloc_page.c:42-50 | marking used sets the page's bit, clears none, and at order 0 touches no other |
| `Buddy.FreeJoins` | src/kernel/mem/alloc_page.c:13-28 | marking free, in either reading of the mask, keeps: both buddies clear means the parent is clear |
| `Buddy.UsedJoins` | src/kernel/mem/alloc_page.c:42-50 | so does marking used |
| `Buddy.FreeCovers` | src/kernel/mem/alloc_page.c:14-27 | read with the in-byte offset, marking free keeps: a parent is clear only if both buddies are |
| `Buddy.UsedCovers` | src/kernel/mem/alloc_page.c:43-49 | marking used keeps it too |
| `Buddy.EarlyReturnLosesNothing` | src/kernel/mem/alloc_page.c:43-49 | where parents cover, `mark_page_used` leaves what setting the bit at all eight orders leaves |
| `Buddy.WrittenCoversIff` | src/kernel/mem/alloc_page.c:20 | as written, marking free keeps parents covering iff the first taken buddy on the way up, if any below the top order, is at an offset the mask sees |
| `Buddy.WrittenClearsParentOfTaken` | src/kernel/mem/alloc_page.c:20 | freeing page 8 while page 9 is taken clears their parent |
| `PhysAlloc.FreedOk` | src/kernel/mem/alloc_page.c:3-30 | freeing a taken page keeps the whole table sound, makes that page alone free, and adds one clear bit |
| `PhysAlloc.UsedOk` | src/kernel/mem/alloc_page.c:32-52 | taking a free page keeps the table sound, makes that page alone taken, and removes one clear bit |
| `PhysAlloc.EarlyCuts` | src/kernel/mem/alloc_page.c:141-160 | early memory and what remains free share no page and together are what was free |
| `PhysAlloc.PhysicalMemory.MarkPageFree` | src/kernel/mem/alloc_page.c:3-30 | the loop over blocks and orders leaves what the recursive marking leaves |
| `PhysAlloc.PhysicalMemory.MarkPageUsed` | src/kernel/mem/alloc_page.c:32-52 | likewise |
| `PhysAlloc.PhysicalMemory.ClearOrders` | src/kernel/mem/alloc_page.c:14-27 | the loop over the orders clears what the recursive marking clears |
| `PhysAlloc.PhysicalMemory.TakeOrders` | src/kernel/mem/alloc_page.c:43-49 | the loop over the orders sets what the recursive marking sets |
| `PhysAlloc.PhysicalMemory.AddBlock` | src/kernel/mem/alloc_page.c:69-79 | a block with eight bitmaps of all ones, each of the fewest pages that have a bit for every 2^j pages, cut off the free memory |
| `PhysAlloc.BitmapsLeast` | src/kernel/mem/alloc_page.c:71-79 | halving the pages of a bitmap, rounding up, leaves the fewest pages for the next order |
| `PhysAlloc.PagesCount` | src/kernel/mem/alloc_page.c:72 | the sum that `pages_total` ends up with is the number of pages in the memory map |
| `PhysAlloc.PhysicalMemory.ReleaseFree` | src/kernel/mem/alloc_page.c:83-92 | exactly the pages of the free regions become free, each counted once |
| `PhysAlloc.PhysicalMemory.AllocPhysEarly` | src/kernel/mem/alloc_page.c:141-160 | cuts the memory off the first region large enough, or returns 0 |
| `PhysAlloc.PhysicalMemory.Init` | src/kernel/mem/alloc_page.c:54-93 | afterwards exactly the pages still in the free regions are free, `pages_free` is the number of clear bits, and all invariants hold |
| `PhysAlloc.PhysicalMemory.AllocPhysPages` | src/kernel/mem/alloc_page.c:95-137 | the 64-bit scan finds the lowest free page of the first block that has one, or BADPAGE iff none is free or the request is not for one page; the page was not out, is inside its block, and is now out; all other pages stay as they were |
| `PhysAlloc.PhysicalMemory.FreePhysPages` | src/kernel/mem/alloc_page.c:162-169 | freeing pages that are out makes exactly those free and keeps `pages_free` equal to the number of clear bits |
| `Heap.PayloadsApart` | src/kernel/mem/kmalloc.c:69 | no payload overlaps another payload or any header |
| `Heap.KernelHeap.constructor` | src/kernel/mem/kmalloc.c:3 | an empty heap: nothing mapped, no block |
| `Heap.KernelHeap.MakeNewBlock` | src/kernel/mem/kmalloc.c:11-24 | the chain grows by one used block of whole pages, on memory that was not mapped; its header is mapped; the mapping stays exact iff the growth is regular |
| `Heap.KernelHeap.Kmalloc` | src/kernel/mem/kmalloc.c:48-79 | if some free block is large enough, the heap does not grow and the block used is a smallest such block, the earliest among equals; otherwise the heap grows by one block, of the request, its header and less than a page more; all other blocks stay; the payload is large enough, was not live, and is the only change to what is live; exactly the pages of the heap stay mapped iff the growth is regular, always below 2 MiB |
| `Heap.KernelHeap.Kfree` | src/kernel/mem/kmalloc.c:81-93 | exactly that payload stops being live; of the chain, with that block freed, exactly the free blocks at the end are gone; exactly the pages of the heap stay mapped iff the cut is regular, always below 2 MiB |
| `Heap.KernelHeap.Shrink` | src/kernel/mem/kmalloc.c:26-46 | cuts exactly after the last used block and keeps every block before the cut; unmaps the pages beyond that the walk visits, which is all of them iff the cut is regular |
| `Heap.GrowthExactIff` | src/kernel/mem/kmalloc.c:11-24 | after growth exactly the pages of the heap are mapped if and only if the range added is regular |
| `Heap.CutExactIff` | src/kernel/mem/kmalloc.c:42-45 | after a cut likewise, for the range removed |
| `Heap.SmallRangeRegular` | src/kernel/mem/kmalloc.c:11-46 | every range within the first 2 MiB of the heap is regular |
| `Heap.GrowsPastTable` | src/kernel/mem/kmalloc.c:11-24 | from an empty heap, after a block of 511 pages, a block of two pages ends on a page that is not mapped |
| `Heap.CutsPastTable` | src/kernel/mem/kmalloc.c:26-46 | a cut back to 511 pages leaves a page beyond the end of the heap mapped |
| `Heap.GrantedOneWay` | src/kernel/mem/kmalloc.c:54-67 | best fit determines the block and the chain afterwards |
| `Heap.Remarked` | src/kernel/mem/kmalloc.c:74-89 | rewriting a used bit moves no block |
| `Heap.FreedLive` | src/kernel/mem/kmalloc.c:81-93 | after freeing and trimming, the live payloads are those before without the freed one |
| `GrowableArray.GrowsIff` | src/kernel/common/array.c:18-26 | growing by half makes room exactly from capacity 2 on |
| `GrowableArray.Array.constructor` | src/kernel/common/array.c:5-10 | an empty array of that capacity |
| `GrowableArray.Array.Push` | src/kernel/common/array.h:19 | emplacing and storing appends the item |
| `GrowableArray.Array.Emplace` | src/kernel/common/array.c:12-28 | one more slot, behind the items there were, across reallocation to one and a half times the capacity |
| `Scheduler.ServedInTurn` | src/kernel/proc.c:126-153 | whatever is scheduled meanwhile, the process at position k is dispatched by exactly the (k+1)-th `next_proc` |
| `Scheduler.TickedAt` | src/kernel/interrupts/timer.S:17-21 | t ticks rotate the current process and the queue by t places |
| `Scheduler.RoundRobin` | src/kernel/proc.c:131-184 | with n distinct processes and only timer ticks, any n consecutive ticks dispatch each exactly once |
| `Scheduler.TicksConserve` | src/kernel/proc.c:131-184 | ticks neither lose nor duplicate a process |
| `Scheduler.RunQueue.constructor` | src/kernel/proc.c:15-26 | both buffers empty |
| `Scheduler.RunQueue.ProcSchedule` | src/kernel/proc.c:126-129 | appends to the queue front[index..] + back, across growth of the buffer |
| `Scheduler.RunQueue.NextProc` | src/kernel/proc.c:136-153 | takes the head of that queue, across the buffer swap, or reports that it is empty |
| `Scheduler.RunQueue.KernSchedule` | src/kernel/proc.c:175-184 | the process taken, if any, becomes the current one |
| `Scheduler.RunQueue.IntTimer` | src/kernel/interrupts/timer.S:17-21 | one tick on the two buffers is one rotation |
| `Scheduler.RunQueue.Ticks` | src/kernel/interrupts/timer.S:9-21 | a run of ticks dispatches, tick by tick, what the rotation says |
| `Scheduler.RunQueue.Run` | src/kernel/proc.c:126-153 | any run of events on the two buffers dispatches what a plain first-in-first-out queue does |
| `Initram.InitRamDisk.constructor` | tools/mkinitram.c:22-30 | empty tables |
| `Initram.InitRamDisk.AddFile` | tools/mkinitram.c:52-87 | tables and counters are those of the list of files so far |
| `Initram.InitRamDisk.SaveInitram` | tools/mkinitram.c:32-50 | the bytes written are header, names, entries and data of exactly those files |
| `Initram.ImageHolds` | tools/mkinitram.c:37-48 | in the image the header has the magic number and the number of files, names, entries and data follow each other up to the end, and every entry, name with its NUL, and file body stands where the offsets point |
| `Initram.SameBytes` | src/libboot/initram.c:17 | the comparison decides whether the stored name is a prefix of the query, and never reads past the query's NUL |
| `Initram.InitramLookup` | src/libboot/initram.c:5-22 | for any query, finds where the bytes of the earliest file start whose name is a prefix of it, or nothing |
| `Initram.FindsOwnFileIff` | src/libboot/initram.c:15-19 | a stored name finds its own file iff no earlier name is a prefix of it |
| `Initram.FindsShorterName` | src/libboot/initram.c:15-19 | with files `a` and `ab`, looking up `ab` finds `a` |
| `SpecParser.ReadsBack` | tools/spec_parser.c:28-57 | reading a list to its end gives exactly its records, whichever line ends and separators stand between them, and one spurious record more when the last line is blank |
| `SpecParser.RoundTripIff` | tools/spec_parser.c:28-57 | for any lines, comments and blank lines anywhere, and any line ends, the round trip holds iff the last line is not blank |
| `SpecParser.TrailingLineFeed` | tools/spec_parser.c:28-57 | one record and a line feed are read as two records |
| `SpecParser.TwoEndsOneLine` | tools/spec_parser.c:12 | carriage return and line feed separate two records as a line feed alone does |
| `SpecParser.SpecFile.ParseSpecStr` | tools/spec_parser.c:4-19 | the loop reads the string up to the next separator or the end |
| `SpecParser.SpecFile.ParseNext` | tools/spec_parser.c:28-57 | the nested loops return the next record, or 1 exactly when a read has already hit the end; they terminate |
| `Mkinitram.BuildInitram` | tools/mkinitram.c:89-106 | the image holds the files of the list's records in order |
| `Mkinitram.ListThenLookup` | tools/mkinitram.c:89-106 | from a printed list to a lookup in the image: among prefix-free names each finds the bytes of its own source file |

## Left out

- Mmap.Mmu.AllocZeroPage: does not run the bitmap scan of `alloc_phys_pages`; it takes any free frame, which is what `PhysAlloc.PhysicalMemory.AllocPhysPages` guarantees.
- Mmap.Mmu.FreePhysPage: does not run `free_phys_pages` on the bitmaps; it states what `PhysAlloc.PhysicalMemory.FreePhysPages` guarantees for one page.
- Mmap.Mmu.Kmap: does not model large-page entries on the way, nor walks that run past the end of a directory, where the code would store to memory outside of its tables.
- Mmap.Mmu.Kunmapanon: does not model pages that are not mapped, for which the code frees frame 0.
- BootAlloc.Boot.Valloc: does not model page counts above 0x80000, where the loop's 32-bit `i * PAGESIZE` overflows, nor running out of memory, where the code stores entries for frame 0; the exact number of frames needed is the precondition.
- PhysAlloc.PhysicalMemory.Init: does not model early memory running out, where the code would put a bitmap at address 0, free regions above 4 GiB, where `j * PAGESIZE` wraps, or sixteen and more blocks, where the code leaves its table.
- Heap.KernelHeap.Kmalloc: does not model running out of physical memory or sizes near the width of the size field; of `kmapanon` and `kunmapanon` it takes which pages they visit, not the stores of a walk past the end of its directory or the frames freed for pages that were not mapped.
- Heap.KernelHeap.Kfree: does not model freeing an address that is not live.
- MfsReader.Reader.LookupAt: does not model absent names or directories of more than one page, for which the loop has no bound.
- MfsReader.InitramInit: does not model the `valloc` of the destination or where in memory the bytes land; it returns them.
- MfsCopy.CopyFile: does not model walks that search for a further name inside the bytes of a file, paths longer than the 1024-byte buffer, or a volume with too few pages; the exact number of pages needed is the precondition.
- Mkvolume.BuildVolume: does not model runs in which two copies land at the same place, or one lands below a file; for such a copy alone see `MfsCopy.CopyFile`.
- Page tables and physical memory are maps from frames to tables of 512 entries; the direct map that reaches them (`physical_to_virtual`) is taken to be faithful for frames below 2^47, and reloading cr3 and the TLB are not modelled.
- Bitmaps, heap headers and file images are values in fields or arrays; memory shared between components is not modelled.
- The times of a volume are a parameter; `make_vbr`, `tools/mkimage.c` and disk I/O only move bytes.
- `mem*` and `str*` functions are modelled by what they compute; names are C strings without NUL inside.
- `alloc_phys` and `free_phys` only round a size to pages; `init_kernel_mem_prot` and `unmap_lomem` are one-off steps.
- Process creation, ELF loading, context switches, interrupt and mode setup are hardware state; `sched_exec` and `sched_wait` appear as the choice of the current process.
- `strcmp` does not advance its index, but nothing here calls it.
