# Verified model of the HFS+ utilities

This project models, in Dafny, the parts of the HFS+ file system utilities in which an
algorithm that works in place has to agree with something simple, and proves that it does,
for every input or every run:

1. **The block cache of `fsck_hfs`** (`src/fsck_hfs/cache.c`): hash chains that move what
   they find to the front, two LRU queues, reference counts, lazy and locked writes, a free
   list kept inside the free memory, and buffers that alias one cache block or span several
   by copy. Every run refines a plain array of bytes.
2. **Catalog checking** (`src/fsck_hfs/dfalib/CatalogCheck.c`): repairing decompositions in
   names (canonical ordering is that of section 3.11 of the Unicode Standard), counting
   subfolders in two ways, and finding missing folder threads.
3. **The volume formatter** (`src/newfs_hfs/makehfs.c`): layout, allocation bitmap, B-trees,
   volume headers and sector-aligned writes, up to the whole volume on the drive. The format is that of Apple Technical Note TN1150.
4. **Hard links** (`src/fsck_hfs/dfalib/HardLinkCheck.c`): collecting links in an
   open-addressing table, sorting damaged chains and repairing them.
5. **The extent manager** (`src/libutil/ExtentManager.cpp`): a list of extents as a set of blocks.
6. **Reading through extents** (`src/hfs_util/hfsutil_main.c`).
7. **Format parameters** (`src/newfs_hfs/newfs_hfs.c`): the default sizes, and that they
   always give a layout that fits.

`dafny verify dfyconfig.toml` checks everything.

## How it is organised

- `Lists.dfy` (modules `Bytes`, `Lists`) and `Blocks.dfy`: splices of byte sequences, doubly
  linked lists over address maps, counting, and block arithmetic.
- Cache: `LruQueues.dfy`, `HashChains.dfy`, `CacheCore.dfy` (what memory, device,
  tags and buffers mean together, and the flat array), `CacheSteps.dfy` (what each kind of
  step does to that), `CacheLists.dfy` (pool, queues, buckets), `CacheState.dfy` (the whole
  state and what holds in all of them), `CacheRoom.dfy` (which blocks have to stay in memory,
  and when others fit), `BlockCache.dfy` (the class), `CacheRun.dfy` (whole runs).
  The outstanding buffers and the device are part of the state; the flat array is a ghost.
  Which transfers to and from the device fail is an input.
- Catalog: `CanonicalOrder.dfy`, `FixDecomps.dfy`, `FolderCounts.dfy`, `CatalogScan.dfy` (with the
  fixed IDs in module `CatalogIDs`).
- Formatter: `Drives.dfy` (the drive and WriteBuffer), `Bitmaps.dfy`, `Layout.dfy`,
  `FormatBitmap.dfy`, `DebugFormat.dfy` (the marking calls of a debug build), `BigEndian.dfy`,
  `BTreeMaps.dfy`, `VolumeFormat.dfy` (everything that a format writes), `FormatParams.dfy`,
  `DefaultFormat.dfy` (a format with the default sizes).
- Hard links: `HardLinks.dfy`, `LinkTable.dfy`. Extents: `Extents.dfy`, `ExtentReads.dfy`.

Numbers are unbounded; where the width of the C type matters it is written out (`U32`,
`% 0x1_0000_0000`). A device is a sequence of bytes whose reads and writes transfer all of
what was asked for or fail.

## Where the code does less than one would expect

In these cases the model keeps the code's behaviour, gives an input that shows it and the
condition under which the expected property holds:

- `ReadFile` truncates block numbers to 32 bits and so reads the beginning of a file for
  offsets of 2^32 blocks and more. Within a longer file it delivers the positions asked for
  exactly for offsets below 2^32 blocks and up to the end of the extent with block 2^32 - 1;
  there it turns back by 2^32 blocks (`ExtentReads.ReadsRightIff`, `ExtentReads.InPlaceIff`,
  `ExtentReads.TruncationReads`).
- `MarkExtentUsed` keeps block numbers in 32 bits. It marks exactly the blocks of the extent if
  and only if they end by the bitmap sector with the bit of block 2^32 - 1, that is by block
  2^32 where the bits of a sector divide 2^32; what lies beyond it marks from block 0 on
  (`Bitmaps.MarkedExactlyIff`, `Bitmaps.TurnDivides`, `Bitmaps.MarkPastTop`).
- A debug build marks the bitmap file before the blocks of the volume header, and refuses
  blocks that are marked: with 512-byte blocks, where four blocks are marked for the header and
  the fourth is the bitmap's, it can format no drive, and with any other size it can format the
  same drives as a release build (`DebugFormat.MakeBitmapDebug`).
- The buffer in which nodes are made is sized by the other two trees, the block size and the
  bitmap, not by the node size of the extents file: a format overruns it exactly when that is
  larger (`VolumeFormat.MakeVolume`, `VolumeFormat.LargeExtentsNode`).
- Formatting clears the first megabyte, which drives from the accepted minimum of 512 KB up to
  1 MB do not have: a default format succeeds exactly from 1 MB on
  (`DefaultFormat.FormatDefault`, `DefaultFormat.SmallestDrive`).
- `WriteBuffer`, on physical sectors larger than 4 MB, has no room in its buffer unless its
  first allocation fails: from a sector boundary on it never ends, from elsewhere it overruns
  the buffer (`Drives.Drive.WriteBuffer`, `Drives.ChunkStuck`, `Drives.ChunkOverruns`).
- `chain_compare` subtracts 32-bit numbers as signed ones. A well-formed chain is certain to be
  accepted if and only if no link but its last has an ID of 2^31 or more; two correct links
  with a higher head always draw repair orders (`HardLinks.QSortFindsHead`,
  `HardLinks.HighHeadDrawsOrders`).
- `validate_hfsplus_block_size` reads past its table for drives from 2^61 up to 2^62 bytes,
  which `bad_disk_size` accepts (`FormatParams.ValidateBlockSize`, `FormatParams.Accepted`).
- The two ways of counting folders agree if and only if a folder with the ID of the root's
  parent has the right count, no folder without a thread has subfolders, and no parent lacks a
  folder record (`FolderCounts.MethodsAgree`, `FolderCounts.RootParentFolder`,
  `FolderCounts.NoThreadFolder`, `FolderCounts.NoFolderParent`).
- The root's parent is reported as lacking a thread when there are records with parent ID 0
  (`CatalogScan.RootParentExempt`, `CatalogScan.RootParentReported`), and the next free ID is
  right if and only if no ID is 2^32 - 1 (`CatalogScan.NextRightIff`, `CatalogScan.TopIDWraps`).
- `RemoveBlockRangeExtent` moves an iterator past the end exactly when it splits the last
  extent, and an empty removal inside an extent leaves two that touch
  (`Extents.ExtentManager.RemoveBlockRangeExtent`, `Extents.SplitAfterAdd`,
  `Extents.EmptyRemovalTouches`).

The comment at `src/newfs_hfs/newfs_hfs.c:820-826` gives 1 TB as the size from which the
table of block sizes is used; the first entry it selects is the default, so the block size
changes at 2 TB, as the comment says next. The model follows the code.

## Model

| member | source | states |
|---|---|---|
| CacheRun.Run | src/fsck_hfs/cache.c:330-724 | over every run of reads, client stores, writes, releases and flushes that keeps outstanding ranges disjoint and in which no call fails, every read returns the bytes of a plain array that only writes change, and at the end the cache stands for that array; and when no transfer fails, no call does if and only if at every read a Buf_t is free, the blocks are on the device, and those in use, the locked ones and its own together fit memory |
| CacheRun.RunNew | src/fsck_hfs/cache.c:196-724 | the same of a run on a new cache, from the bytes of the device |
| CacheRun.Call | src/fsck_hfs/cache.c:330-724 | each single call is simulated by the reference machine: same bytes, same open buffers, same locked blocks; and says exactly when it fails on a device without errors |
| BlockCache.Cache.constructor | src/fsck_hfs/cache.c:196-292 | a new cache stands for the bytes of the device and has all its memory on the free list |
| BlockCache.Cache.CacheRead | src/fsck_hfs/cache.c:330-498 | a successful read, direct or spanning, opens a buffer with exactly the current bytes of its range, pins exactly the blocks it touches and changes no byte, whatever it had to evict; it cannot fail when the range is cached; on a device without errors it succeeds if and only if a Buf_t is free, the blocks are on the device, and they fit memory along with the pinned ones |
| BlockCache.Cache.CacheWrite | src/fsck_hfs/cache.c:505-636 | a successful write changes exactly the buffer's own range, to what the client sees, also in blocks shared with other buffers; the blocks are always still cached (nothing is read); a lazy or locked write cannot fail and leaves the device alone, and no write fails on a device without errors; exactly the blocks of a locked write become locked; those left without references go to the front of Head, or, aged, to its back |
| BlockCache.Cache.CacheRelease | src/fsck_hfs/cache.c:645-724 | releasing an unmodified buffer always succeeds, touches neither bytes nor device, and its lookups always hit; blocks left without references go to the front of Head, or, aged, to its back |
| BlockCache.Cache.CacheLookup | src/fsck_hfs/cache.c:1222-1300 | a hit moves the tag to the front of its bucket and changes nothing else; a miss succeeds if and only if a block is free or the victim can be written out, and the block can then be read; it fails with ENOMEM exactly for want of a free block and a victim; it changes no logical byte and drops no referenced tag |
| BlockCache.Cache.MakeRoom | src/fsck_hfs/cache.c:1268-1286 | succeeds if and only if the free list is not empty, or Head is not and its last tag is clean or can be written out |
| CacheRoom.RoomEnough | src/fsck_hfs/cache.c:1452-1470 | as long as the blocks needed at once fit memory, a block is free or there is a tag to evict |
| CacheRoom.PinnedIs | src/fsck_hfs/cache.c:391-395 | between calls exactly the blocks under outstanding buffers and the locked ones cannot be evicted |
| BlockCache.Cache.FindTag | src/fsck_hfs/cache.c:1229-1236 | walking the bucket finds the tag of an offset exactly when there is one |
| BlockCache.Cache.MoveToFront | src/fsck_hfs/cache.c:1238-1262 | moves the tag to the front of its bucket, the others keeping their order; every bucket stays a well-formed doubly linked chain |
| BlockCache.Cache.LRUHit | src/fsck_hfs/cache.c:1408-1437 | the tag goes to the front of Busy if it has references, and otherwise to the front of Head, or, aged, to its back; both rings stay well formed |
| BlockCache.Cache.LRUEvict | src/fsck_hfs/cache.c:1452-1490 | the victim is the tag at the back of Head; evicting it frees a block, unless it could not be written out, changes no logical byte and touches no referenced tag |
| BlockCache.Cache.CacheRemove | src/fsck_hfs/cache.c:731-769 | a referenced tag is refused; otherwise tag, bucket entry and memory go, lazy bytes having reached the device, unless writing them fails |
| BlockCache.Cache.CacheFreeBlock | src/fsck_hfs/cache.c:822-850 | lazy bytes are written out first; the block goes to the head of the free list unless it is locked |
| BlockCache.Cache.CacheAllocBlock | src/fsck_hfs/cache.c:800-815 | pops the free list, whose links lie in the free blocks themselves |
| BlockCache.Cache.ClientStore | src/fsck_hfs/cache.c:387-396 | storing into a direct buffer changes cache memory at once, but not the flat array and not what other buffers show |
| BlockCache.Cache.ClientLoad | src/fsck_hfs/cache.c:387-396 | what a client reads in its buffer is what the flat array had at the read, or what the client stored since |
| BlockCache.Cache.CacheFlush | src/fsck_hfs/cache.c:859-893 | after a successful flush no tag is lazy, nothing cached has changed, and every block without outstanding buffer and without lock is identical on the device; with nothing lazy it does nothing, and on a device without errors it cannot fail |
| CacheState.RefsCountBuffers | src/fsck_hfs/cache.c:391-395 | in every reachable state an unlocked tag's count is the number of outstanding buffers that cover its block, a locked tag's is larger, and Head and Busy hold exactly the tags with count zero and above |
| CacheState.CoveredIsBusy | src/fsck_hfs/cache.c:577-612 | a block under an outstanding buffer is cached and Busy, so it cannot be evicted and lookups for it hit |
| CacheState.MemoryConserved | src/fsck_hfs/cache.c:262-269 | every memory block is on the free list or under exactly one tag; FreeSize is the length of the list, and with the number of tags makes up the total |
| CacheState.TagsHashed | src/fsck_hfs/cache.c:1222-1262 | each offset has at most one tag, in bucket offset mod HashSize of a well-formed chain |
| CacheState.CleanOnDevice | src/fsck_hfs/cache.c:520-538 | a block neither covered, lazy nor locked is on the device |
| CacheState.FlushedOnDevice | src/fsck_hfs/cache.c:859-893 | with no lazy tag, the device is up to date on every idle block |
| CanonicalOrder.SortOk | src/fsck_hfs/dfalib/CatalogCheck.c:2047-2097 | insertion from the right sorts by class and keeps the order of equal classes |
| CanonicalOrder.SortUnique | src/fsck_hfs/dfalib/CatalogCheck.c:2047-2097 | there is only one such arrangement |
| CanonicalOrder.CanonIsOrdering | src/fsck_hfs/dfalib/CatalogCheck.c:1909-2118 | the computed ordering keeps units of class zero in place and stably sorts every maximal run in between |
| CanonicalOrder.OrderingIsCanon | src/fsck_hfs/dfalib/CatalogCheck.c:1909-2118 | and is the only arrangement that does |
| CanonicalOrder.CanonIdempotent | src/fsck_hfs/dfalib/CatalogCheck.c:1909-2118 | ordering an ordered name changes nothing |
| FixDecomps.Fix | src/fsck_hfs/dfalib/CatalogCheck.c:1909-2118 | for every name and all tables of the five actions: stays within 255 units; when the substituted name fits, the output is that name in canonical order; returns true exactly when it fits and something was substituted or reordered. The substituted name is what the pieces of the only left-to-right cut of the name become: a unit to which no action applies is copied, and the units that one of the five actions takes become the units that it gives, in order |
| FixDecomps.Switch | src/fsck_hfs/dfalib/CatalogCheck.c:1944-1977 | the switch finds the piece at the front of the rest of the name |
| FixDecomps.CutUnique | src/fsck_hfs/dfalib/CatalogCheck.c:1926-2030 | there is only one cut of a name |
| FixDecomps.Emit | src/fsck_hfs/dfalib/CatalogCheck.c:2036-2107 | one more unit keeps the output the ordering of what was emitted, in all four cases of the code |
| FixDecomps.ShiftUp | src/fsck_hfs/dfalib/CatalogCheck.c:2083-2094 | the inner loop moves exactly the units of higher class up by one |
| FolderCounts.CheckFolderCount | src/fsck_hfs/dfalib/CatalogCheck.c:323-507 | on every catalog in key order with unique folder IDs and no ID 0: reports what the pass or the rescan reports, memory running out at any moment; if every folder has a thread and every parent a folder record, exactly the folders whose recorded count differs from the number of their subfolders and directory hard links (the pass skips an ID of 1); each is reported once; with two entries of memory per record the pass is never abandoned |
| FolderCounts.ChildrenAre | src/fsck_hfs/dfalib/CatalogCheck.c:150-166 | what counts as a subfolder: a folder record, and a directory hard link unless its parent is the private directory of file links |
| FolderCounts.OnePass | src/fsck_hfs/dfalib/CatalogCheck.c:400-500 | the hashed pass reports every ID it comes across, but that of the root's parent, with other than the recorded number of subfolders, where an ID without a folder record has none recorded |
| FolderCounts.Rescan | src/fsck_hfs/dfalib/CatalogCheck.c:400-436 | on every catalog in key order, rescanning reports each folder whose count is not what a scan from its thread finds, which is nothing without a thread |
| FolderCounts.CountFolderRecords | src/fsck_hfs/dfalib/CatalogCheck.c:121-179 | scanning from the folder's thread to the first foreign record counts all its subfolders, modulo 2^32 |
| FolderCounts.FolderCountAdd | src/fsck_hfs/dfalib/CatalogCheck.c:259-302 | records the folder's own count and adds one to the parent's, in a table from IDs to counts; fails only without memory |
| FolderCounts.FindFolderEntry | src/fsck_hfs/dfalib/CatalogCheck.c:199-219 | finds an entry exactly when the table has one; an ID of 0 finds an unused first entry |
| FolderCounts.AddFolderEntry | src/fsck_hfs/dfalib/CatalogCheck.c:221-248 | adds an empty entry in the first place of the bucket or at its end, and nothing else |
| FolderCounts.Report | src/fsck_hfs/dfalib/CatalogCheck.c:466-499 | going through the buckets reports each entry with differing counts |
| FolderCounts.MethodsAgree | src/fsck_hfs/dfalib/CatalogCheck.c:121-179 | the two methods report the same if and only if a folder with the ID of the root's parent has the right count, no folder without a thread has subfolders, and no parent lacks a folder record |
| FolderCounts.RootParentFolder | src/fsck_hfs/dfalib/CatalogCheck.c:483-485 | a well-formed catalog on which they disagree |
| FolderCounts.NoThreadFolder | src/fsck_hfs/dfalib/CatalogCheck.c:144-151 | a catalog on which they disagree for want of a thread |
| FolderCounts.NoFolderParent | src/fsck_hfs/dfalib/CatalogCheck.c:466-499 | a catalog on which they disagree for want of a folder record |
| CatalogScan.Scan.CheckAll | src/fsck_hfs/dfalib/CatalogCheck.c:515-600 | over every error-free sequence in key order the captured threads are, once each, those of the parents with records but no folder thread (with the exemption of the root's parent as the code grants it); dirThreads counts real and captured ones, and dirCount, fileCount and fileThreads the folder, file and file thread records; nextCNID is the larger of 16 and one more than the largest ID, unless an ID is 2^32 - 1; and with memory a pass fails only for a bad record |
| CatalogScan.Scan.CheckCatalogRecord | src/fsck_hfs/dfalib/CatalogCheck.c:659-733 | accepts exactly the good records (given memory), with the effect of one step of the summary |
| CatalogScan.Scan.CaptureMissingThread | src/fsck_hfs/dfalib/CatalogCheck.c:1816-1845 | puts the ID at the front of the list, or fails without memory |
| CatalogScan.Scan.CheckID | src/fsck_hfs/dfalib/CatalogCheck.c:836-842 | only user IDs (and the root folder's) pass; nextCNID is raised, in 32 bits |
| CatalogScan.Scan.CheckThread | src/fsck_hfs/dfalib/CatalogCheck.c:1083-1119 | passes exactly the threads whose IDs are legal |
| CatalogScan.StepOk | src/fsck_hfs/dfalib/CatalogCheck.c:672-722 | each good record in key order keeps the state a summary of the records so far |
| CatalogScan.RootParentExempt | src/fsck_hfs/dfalib/CatalogCheck.c:524-524 | of the threads captured by a pass: when exactly the root's parent is exempt from needing one |
| CatalogScan.NextRightIff | src/fsck_hfs/dfalib/CatalogCheck.c:841-842 | after a pass nextCNID is right if and only if no ID is 2^32 - 1 |
| CatalogScan.RootParentReported | src/fsck_hfs/dfalib/CatalogCheck.c:524-524 | runs the pass on a catalog without errors in which the root's parent is captured |
| CatalogScan.TopIDWraps | src/fsck_hfs/dfalib/CatalogCheck.c:841-842 | runs the pass on a folder with ID 2^32 - 1, after which nextCNID is not right |
| Drives.Drive.WriteBuffer | src/newfs_hfs/makehfs.c:1886-1988 | for every sector size, start, count and limit: exactly the bytes of the range change, to the buffer or to zeros, though whole physical sectors are read and written in chunks; fails exactly for a range past the end of the drive, a prefix having been written; and with no room for a sector, exactly for sectors above 4 MB and a successful first allocation, never ends from a sector boundary on and overruns its buffer from elsewhere |
| Drives.ChunkOk | src/newfs_hfs/makehfs.c:1937-1940 | no chunk is empty, a chunk that is not the last ends on a sector boundary, and one that is not read first fills its sectors |
| Drives.ChunkStuck | src/newfs_hfs/makehfs.c:1911-1940 | with room for no sector, a pass from a sector boundary on transfers nothing and leaves everything as it was |
| Drives.ChunkOverruns | src/newfs_hfs/makehfs.c:1937-1952 | with room for no sector, a pass from inside a sector on copies up to 2^32 less its offset bytes to a buffer of none |
| Bitmaps.AllocateExtent | src/newfs_hfs/makehfs.c:884-957 | sets exactly the bits of the extent, most significant first; in debug builds fails exactly when one was set already |
| Bitmaps.MarkExtentUsed | src/newfs_hfs/makehfs.c:971-1054 | for every extent and sector size, a sector at a time with 32-bit block numbers: sets exactly the extent's bits in the bitmap on the drive up to the turn, and beyond it those 2^32 lower, and no other bit of the drive; up to the turn that equals setting one bit after the other; fails exactly past the end of the drive or, in debug builds, on a set bit |
| Bitmaps.MarkedExactlyIff | src/newfs_hfs/makehfs.c:1047-1048 | on a bitmap with none of those bits set, exactly the extent is marked if and only if it ends by the turn |
| Bitmaps.TurnDivides | src/newfs_hfs/makehfs.c:998-1048 | the turn is block 2^32 for all sector sizes whose bits divide 2^32 |
| Bitmaps.MarkPastTop | src/newfs_hfs/makehfs.c:1047-1048 | marking two blocks from block 2^32 - 1 on marks block 0 and leaves bit 2^32 alone |
| Bitmaps.OneByOneSets | src/newfs_hfs/makehfs.c:891-895 | setting one bit after the other sets exactly the range |
| Bitmaps.BitsDetermine | src/newfs_hfs/makehfs.c:891-895 | the bits determine the bytes |
| Layout.InitVH | src/newfs_hfs/makehfs.c:649-877 | for every layout that fits before the tail blocks: regions in order, disjoint and within the volume, free blocks are those in no region, the files from bitmap to attributes contiguous, and no 32-bit sum wraps |
| Layout.JournalRounded | src/newfs_hfs/makehfs.c:767-775 | short of 2^32 bytes the journal is rounded up to whole blocks |
| FormatBitmap.MakeBitmap | src/newfs_hfs/makehfs.c:398-542 | after clearing the first megabyte, which fails exactly on smaller drives, zeroing and marking leave exactly the blocks of the regions marked, freeBlocks the number of clear bits, and everything else in the first megabyte and the files zero, for all block sizes including 512 and 1024 |
| DebugFormat.MakeBitmapDebug | src/newfs_hfs/makehfs.c:398-542 | the debug build's order of clearing and marking succeeds exactly on drives of 1 MB and more with blocks of other than 512 bytes, and then sets the union of its ranges |
| DebugFormat.MarkVolumeDebug | src/newfs_hfs/makehfs.c:414-540 | its marking calls find a set bit exactly with 512-byte blocks |
| FormatBitmap.MarkVolume | src/newfs_hfs/makehfs.c:490-540 | the sequence of marking calls sets the union of their ranges, and changes no byte outside the bitmap file |
| FormatBitmap.ZeroFiles | src/newfs_hfs/makehfs.c:434-447 | zeroes exactly the blocks from the bitmap to the one behind the attributes file, and the catalog file |
| FormatBitmap.CountOrdered | src/newfs_hfs/makehfs.c:870-870 | clear bits beside ordered regions are all blocks less the regions' sizes |
| FormatBitmap.CatalogSectors | src/newfs_hfs/makehfs.c:446-447 | the 32-bit sector number of the catalog file does not wrap |
| BTreeMaps.WriteTree | src/newfs_hfs/makehfs.c:1559-1624 | for every node size from 1024 to 32768 and every 32-bit file size: least number of map nodes, used and free nodes make up the total; on the drive is the header node with every field of its descriptor, header record and record offsets at the offset of the format, and a map record with exactly the used nodes' bits; the forward links from it visit exactly the map nodes, each with one empty record, and end at 0; no byte outside the used nodes changes; fails exactly past the end of the drive |
| BTreeMaps.WriteHeader | src/newfs_hfs/makehfs.c:1559-1624 | the buffer holds a header node with its fields at their offsets, whose map record has exactly the used nodes' bits and is not overrun |
| BTreeMaps.FieldsInPlace | src/newfs_hfs/makehfs.c:1559-1624 | each field of the header node can be read at its offset |
| BTreeMaps.MapNodeIs | src/newfs_hfs/makehfs.c:1849-1858 | a map node has one record, from offset 14 to six bytes before its end, with no bit set |
| BTreeMaps.WriteMapNodes | src/newfs_hfs/makehfs.c:1840-1877 | writes the map nodes to the drive one after the other, each linked to the next and with its record offsets, and nothing else; fails exactly past the end of the drive |
| BTreeMaps.FewMapNodes | src/newfs_hfs/makehfs.c:1586-1604 | at most 522 map nodes, so the 16-bit counter of WriteMapNodes does not wrap |
| BigEndian.RoundTrip32 | src/newfs_hfs/makehfs.c:1869-1869 | a forward link read back from its big-endian bytes is the one stored |
| BigEndian.RoundTrip16 | src/newfs_hfs/makehfs.c:203-204 | and so is a 16-bit record offset |
| BTreeMaps.TreeFrame | src/newfs_hfs/makehfs.c:543-640 | writes outside the used nodes of a tree leave header node, map record and links as they are |
| VolumeFormat.MakeVolume | src/newfs_hfs/makehfs.c:398-640 | for all parameters that fit, without a journal: fails exactly below 1 MB and overruns its node buffer exactly when an extents node is larger; otherwise, after all writes, the bitmap marks exactly the blocks of the regions and freeBlocks counts the clear bits, each of the three files holds its tree, both places of the volume header have each field of the layout at its offset, and everything else in the first megabyte and the files is zero |
| VolumeFormat.WriteVolume | src/newfs_hfs/makehfs.c:543-640 | trees and headers do not disturb the bitmap or one another, and every write lies within the drive |
| VolumeFormat.StoreReads | src/kmod/core/hfs_format.h:673-708 | every field stored in the volume header is read back, since none overlap |
| VolumeFormat.FieldsAreHeader | src/kmod/core/hfs_format.h:673-708 | so journalInfoBlock is at offset 12, blockSize, totalBlocks and freeBlocks at 40, 44 and 48, and counts and starts of the four files in their fork data at 112, 192, 272 and 352 |
| VolumeFormat.InOrder | src/newfs_hfs/makehfs.c:649-877 | in bytes: volume header, bitmap, extents, attributes, catalog and alternate header follow one another |
| VolumeFormat.LargeExtentsNode | src/newfs_hfs/makehfs.c:449-466 | a format with extents nodes of 32768 bytes and others of 4096 overruns its buffer |
| VolumeFormat.BufferIs | src/newfs_hfs/makehfs.c:449-466 | the buffer is the largest of four sizes, rounded up to whole sectors |
| HardLinks.TSort | src/fsck_hfs/dfalib/HardLinkCheck.c:113-169 | for all links with distinct nonzero IDs, however damaged: the result is the permutation that starts with the link qsort put first and continues each link with the one it names, if that is still left, and otherwise with the first one left; a list that can be ordered into a chain is put into that order exactly when qsort put its head first |
| HardLinks.TopologicalUnique | src/fsck_hfs/dfalib/HardLinkCheck.c:135-161 | that determines the result |
| HardLinks.FragmentKept | src/fsck_hfs/dfalib/HardLinkCheck.c:145-228 | two links that name each other end up as neighbours, and no order changes what they say, unless the second was copied before the first |
| HardLinks.FindId | src/fsck_hfs/dfalib/HardLinkCheck.c:102-111 | a place with the ID, or 0, which also stands for not found |
| HardLinks.CheckHardLinkList | src/fsck_hfs/dfalib/HardLinkCheck.c:183-243 | records the orders of the list so sorted; for a permutation of a well-formed chain none, exactly when qsort puts its head first |
| HardLinks.RepairMakesChain | src/fsck_hfs/dfalib/HardLinkCheck.c:207-231 | carrying out the orders gives one well-formed doubly linked chain over exactly those links |
| HardLinks.RepairIsFinal | src/fsck_hfs/dfalib/HardLinkCheck.c:94-243 | carried out on the catalog, in whatever order it holds the links, they give a permutation of that chain |
| HardLinks.CheckRepairCheck | src/fsck_hfs/dfalib/HardLinkCheck.c:94-243 | whatever the damage, a check after the repair records nothing if and only if qsort puts the link without a predecessor first, which it does when no link but the last of the chain has an ID of 2^31 or more |
| HardLinks.QSortFindsHead | src/fsck_hfs/dfalib/HardLinkCheck.c:94-133 | with the comparison of the code, qsort is certain to put the head of a chain first if and only if no link but the last has an ID of 2^31 or more |
| HardLinks.HighHeadDrawsOrders | src/fsck_hfs/dfalib/HardLinkCheck.c:94-100 | two correct links, the first with a higher ID, which qsort has to exchange and which then draw orders |
| LinkTable.HashSearch | src/fsck_hfs/dfalib/HardLinkCheck.c:1309-1332 | probing no more slots than are in use, finds a key's slot if and only if it was inserted |
| LinkTable.HashInsert | src/fsck_hfs/dfalib/HardLinkCheck.c:1277-1306 | fails exactly for a key that is there (13) or a full table (14); otherwise adds it and changes no other slot |
| LinkTable.Collect | src/fsck_hfs/dfalib/HardLinkCheck.c:713-753 | after the pass the table holds exactly the inodes seen, each with its links in catalog order and their number; it gives up exactly when there are more inodes than slots |
| LinkTable.AddLink | src/fsck_hfs/dfalib/HardLinkCheck.c:713-753 | one link: the search after an insertion always hits |
| LinkTable.Lookup | src/fsck_hfs/dfalib/HardLinkCheck.c:803-818 | an inode is found exactly when some link refers to it, with all of them |
| Extents.Run | src/libutil/ExtentManager.cpp:29-173 | every sequence of adds and nonempty removes keeps the list sorted and separated and computes the set algebra; it stops at the first remove that splits the last extent and nowhere else |
| Extents.ExtentManager.Init | src/libutil/ExtentManager.cpp:29-41 | the empty set over as many blocks as hold the bytes, with an extent at either end |
| Extents.ExtentManager.AddBlockRangeExtent | src/libutil/ExtentManager.cpp:51-104 | for any address: union with the part of the range inside the volume, which, even if empty, and every earlier extent lie in one extent of the new list; it stays sorted and separated |
| Extents.ExtentManager.RemoveBlockRangeExtent | src/libutil/ExtentManager.cpp:107-173 | difference; separated afterwards unless an empty range was removed from the inside of an extent; the iterator passes the end exactly when the last extent is split |
| Extents.RemainingCovers | src/libutil/ExtentManager.cpp:116-170 | after a removal exactly its blocks are gone |
| Extents.RemainingOk | src/libutil/ExtentManager.cpp:116-170 | what remains is sorted, and separated under exactly that condition |
| Extents.Merge | src/libutil/ExtentManager.cpp:43-49 | the smallest extent around two |
| Extents.SplitAfterAdd | src/libutil/ExtentManager.cpp:135-147 | on a new manager, after one add of any range up to the end of the volume, every remove from the inside of it passes the end |
| Extents.EmptyRemovalTouches | src/libutil/ExtentManager.cpp:135-147 | an empty removal that leaves two extents that touch |
| ExtentReads.ReadFile | src/hfs_util/hfsutil_main.c:2397-2423 | for every extent list and device block size: succeeds exactly when the range, from the truncated offset on, lies in the file, and always for 2^32 blocks or more; delivers the bytes of the concatenated extents from the truncated offset up to the end of the extent with block 2^32 - 1, and then again and again the 2^32 blocks before that end |
| ExtentReads.LogicalToPhysical | src/hfs_util/hfsutil_main.c:2326-2381 | fails exactly past the last nonempty extent; otherwise locates at least one byte and as many as are contiguous |
| ExtentReads.ReadAt | src/hfs_util/hfsutil_main.c:2431-2482 | reading whole device blocks delivers exactly the range; fails exactly past the end of the device |
| ExtentReads.ReadsRightIff | src/hfs_util/hfsutil_main.c:2336-2336 | for files of fewer than 2^32 blocks, reading is right if and only if the offset is below 2^32 blocks or the truncated range is past the end as well; for longer ones if and only if the range lies in the file and the positions delivered hold the bytes of those asked for |
| ExtentReads.InPlaceIff | src/hfs_util/hfsutil_main.c:2336-2336 | the positions delivered are those asked for if and only if the offset is below 2^32 blocks and the range ends by the turn |
| ExtentReads.TruncationReads | src/hfs_util/hfsutil_main.c:2336-2336 | for every block size, a read at offset 2^32 blocks of a file of one block succeeds and delivers its beginning |
| FormatParams.BadDiskSize | src/newfs_hfs/newfs_hfs.c:693-728 | rejects exactly by bits or by size, and the product it computes never wraps |
| FormatParams.Accepted | src/newfs_hfs/newfs_hfs.c:693-728 | with 512-byte sectors exactly drives below 2^62 bytes pass |
| FormatParams.GetHighBit | src/newfs_hfs/newfs_hfs.c:776-784 | the least k with x below 2^k |
| FormatParams.ValidateBlockSize | src/newfs_hfs/newfs_hfs.c:793-859 | a block size is chosen exactly below 2^61 bytes: 4096 exactly below 2^41, 8192 up to 2^42, and from there on the power of two that gives at least 2^29 and fewer than 2^30 blocks; beyond, past the table or too big |
| FormatParams.CalcClumpSize | src/newfs_hfs/newfs_hfs.c:1464-1520 | 0.8 % of a volume below 1 GB, but eight nodes at least, and otherwise the megabytes for the range its size is in, rounded down to a multiple of both block and node size, or one of them if that is nothing; it holds two nodes, fits 32 bits and is at most a 64th of the volume, eight nodes or one block |
| FormatParams.RowIsRight | src/newfs_hfs/newfs_hfs.c:1408-1498 | counting doublings selects the row for the range, and the column of the file |
| FormatParams.DefaultSizes | src/newfs_hfs/newfs_hfs.c:1197-1328 | all default sizes for every drive from 512 KB to 2^61 bytes: nothing wraps, the block size is that of the ranges above, the bitmap the least whole number of blocks with a bit per block, and each B-tree, in whole nodes and blocks, has the clump size of its own file |
| FormatParams.BitmapSize | src/newfs_hfs/newfs_hfs.c:1302-1316 | the least whole number of blocks with a bit for every block |
| FormatParams.BitmapSuffices | src/newfs_hfs/newfs_hfs.c:1302-1316 | it is what marking the blocks needs |
| DefaultFormat.LayoutFits | src/newfs_hfs/makehfs.c:649-877 | without a journal the default sizes always fit before the tail |
| DefaultFormat.FormatDefault | src/newfs_hfs/makehfs.c:398-640 | for every drive of 512-byte sectors from 512 KB up to 2^61 bytes the default layout has disjoint nonempty files of the default sizes; the format succeeds exactly from 1 MB on, and then leaves a whole volume: bitmap, free count, three trees of the default node sizes, both volume headers, and zeros elsewhere in the files |
| DefaultFormat.SmallestDrive | src/newfs_hfs/makehfs.c:411-412 | formats the smallest accepted drive, of 1024 sectors: it is not rejected and its 128 blocks are laid out, but the format fails |

## Left out

- BlockCache.Cache.CacheRead: reads of no bytes, and ranges that overlap an outstanding buffer; the check over ActiveBufs, which does not find all of those, is not modelled.
- BlockCache.Cache.CacheRelease: releasing a buffer into which the client has stored, after which cache and flat array differ.
- CacheRun.Run: says nothing about runs in which a call fails, since a failed read leaves a tag without its block loaded.
- Cache: CacheFlushRange and its callers, CacheEvict, CacheDestroy and the choice of cache sizes; wrap-around of the 32-bit Refs; memory for a tag or for the copy of a spanning buffer is always had; a raw read or write transfers all or fails.
- Cache: structures with pointers are maps from addresses to fields in one field of the class, so aliasing between C structures of different types is not modelled.
- FixDecomps: the tables themselves; they are arbitrary functions from units to classes and actions.
- CatalogScan.Scan.CaptureMissingThread: the key saved with the entry and the repair level, which later phases use.
- CatalogScan: checks of names, extents, permissions and links are one result per record; counters are unbounded; HFS volumes.
- FolderCounts.CheckFolderCount: catalogs with a repeated folder ID or an ID of 0.
- FolderCounts.OnePass: the same catalogs.
- FolderCounts.FolderCountAdd: a parent ID of 0, which shares the unused first entry of a bucket.
- FolderCounts.AddFolderEntry: an ID of 0, or one that is in the table, for which the code does not call it.
- FolderCounts: the repair of the folder-count flag, and the B-tree, which is a sequence of records in key order.
- HardLinks: allocation failure in tsort; a repair order sets its field to the correct value; qsort promises nothing but a permutation when the comparison does not order the links.
- LinkTable: the size of the table is given; link counts are unbounded; linkInfo flags other than the one for a slot in use.
- Extents.ExtentManager.AddBlockRangeExtent: a negative number of blocks, and 64-bit overflow of addresses.
- Extents.ExtentManager.RemoveBlockRangeExtent: a negative number of blocks, and 64-bit overflow of addresses.
- Extents: AddByteRangeExtent.
- Drives.Drive.WriteBuffer: byte counts near 2^64, and what the program does after overrunning its buffer.
- DebugFormat.MakeBitmapDebug: files placed by debug options, and the journal, which is marked later.
- Layout.InitVH: debug placement of files, fsStartBlock, nextAllocation, and header fields that are not about the layout.
- FormatBitmap.MakeBitmap: sector sizes other than 512, and an empty attributes file, for which the end of the area to mark is computed from a missing file.
- BTreeMaps: the content of the root node of the catalog file; debug overflow extents; the leaf of a content-protected attributes file.
- VolumeFormat.MakeVolume: journaled volumes; a catalog file with room for one node only, for which the count of free nodes wraps around; header fields that are not about the layout.
- ExtentReads.ReadFile: extents that reach past the end of the device, where a read fails.
- ExtentReads: allocation failure; writeAt.
- DefaultFormat.FormatDefault: journaled volumes, whose journal need not fit on the smallest drives.
- Device access, option parsing, messages, endianness of other structures, dates, UUIDs, mounting and the journal utilities.
