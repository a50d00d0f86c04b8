# FSL runtime and layout compiler, in Dafny

FSL turns declarative descriptions of on-disk layouts into tables of thunks, and a runtime
reads bits through caches and address translations, scans the resulting type graph, and
relocates blocks with write packets. This project models its central parts and proves what
they are for:

- **Storage.** A disk is a byte sequence. `Flat` is the memory-mapped backend; `Pread` is the
  file backend with its 512-line direct-mapped cache, `PhysRead` the misaligned reads in both
  byte orders, `WriteLog` the write log. `Session` proves that every run of reads, writes and
  log operations shows a caller what a flat disk shows.
- **Relocation.** `Packets` runs write packets (conditional writes and nested conditional
  calls), `Relocate` is the allocate / copy / replace / relink protocol. It is instantiated on
  the bytes of three file systems: `Vfat` (FAT16 and FAT32, after the Microsoft FAT32 File
  System Specification, sections "FAT Data Structure" and "FAT Type Determination"), `Minix`
  (v1) and `Ext2` / `Ext2Move` / `Ext2Other` (data blocks). Files may have holes. `FatChain`
  holds the abstract view of a FAT, `Volume` all files of a vfat volume together.
- **Tools.** `Bitmap` and `Choice` are the cache of free candidates; `Defrag` is the
  defragmenter on one file; `Runs` are whole runs of the defragmenter and the scatter tool.
- **Virtual addresses.** `Virt`: the translation cache, the search for the n-th element, and
  reads through a mapping.
- **Scanner.** `TypeGraph`: the tables, the ancestor check and a plain recursion, with virtual
  lists through `Virt`. `Paths`: which events the tables lead to and in what order, without a
  walk. `Scan`: the stack machine with linked frames and a free list, which reports exactly
  these. `Arrays`: element offsets computed three ways.
- **Layout compiler.** `Layout`: declarations, nested conditionals and set/skip/align become
  offset thunks that call each other by name. `Expr`: constant folding and rewriting.

`Bits` and `Arith` hold bit slices and division facts that the rest uses.

Results that limit or correct what the code suggests:

- minix v1: relocation is right exactly when the offset is not `bindir_base_v1()`. There no
  clause of the relink packet fires, and the block that the file still uses is given back to
  the free pool (`Minix.MovedExactly`, `Minix.MovedFile`).
- A byte-aligned cached read returns the field on every file that has its lines exactly when it stays within a
  cache line or has a whole number of bytes (`PhysRead.AlignedReadExact`).
- The endpoint check of `__getLocal` is enough exactly when a source element is at least as
  long as the distance from the first to the last byte of the read: 56 bits for a 64-bit read
  (`Virt.EndpointsSuffice`, `Virt.EndpointsNotEnough`).
- `fsl_virt_get_nth` accepts an index at or past the bit count exactly when two of the first
  elements, at indices up to the bit count, start at one offset, and an element after the first
  of them passes the bounds check and comes back at such an index of 32 bits
  (`Virt.AcceptedPastEnd`). It takes a size that wraps the 64-bit sum, but such a size alone
  does no harm (`Virt.WrapWithoutReturn`).
- A deep scan ends when every virtual list that it meets does. The index of a list has 32 bits
  and starts over after the last one, so a list is endless exactly when its elements return to
  an earlier offset and all of them up to there pass the bounds check, or 2^32 different
  elements exist (`Virt.EndlessExactly`, `Scan.ListEndsExactly`). The second takes a mapping of
  2^32 bits or more (`Virt.BoundedExactly`, with sizes in `Virt.MoreThanIndices`); a bound on
  the element size rules it out (`Virt.LargeBounded`).
- Align statements pad right for every cursor exactly when the alignment divides 2^64, apart
  from the alignment 2^64 - 1 (`Layout.PadExact`).
- In an array size `from_base_bits()` is replaced by the cursor itself
  (src/compiler/symtab_thunkbuilder.cc:215-218), in set, skip and align by the distance from
  the base (src/compiler/symtab_thunkbuilder.cc:674-690). The direct walk gives it the second
  meaning everywhere; the compiler agrees for every type exactly when the type starts at
  offset 0 (`Layout.RightExactlyAtZero`).
- A field name that is declared twice keeps the thunk of its first declaration: it is present
  exactly when the conditions of that declaration hold (`Layout.SameNameFails`).
- One simplify folds an expression exactly when the sides of its flagged nodes are numbers; a
  second one folds all constant arithmetic (`Expr.FoldsExactly`, `Expr.SecondSimplifyFolds`).
- The choices of the vfat rules end at the number of clusters, while clusters are numbered from
  2: neither tool ever moves anything to the last cluster (`Defrag.Tool.LoadChoices`).
- In the ext2 rule, a replace packet computed before the allocation is committed would leave
  the free counts right exactly when the two blocks are in different groups
  (`Ext2Move.AllocMustCommitFirst`).
- The scanner's running array offset is right exactly when every element that cannot be
  followed has the size that the field reports (`Arrays.ScanExact`, `Scan.CursorExact`).

Thunks that FSL generates are functions of the disk and a closure. Random numbers of the
scatter tool are parameters. Assertions of the runtime are preconditions.

## Model

| member | source | states |
|---|---|---|
| Flat.StoredIsPut | src/runtime/rt-mmap/io.c:135-185 | the bytes stored by the memory-mapped backend are the only disk whose bits are the old ones with the written field replaced |
| Flat.ApplyFrame | src/runtime/log.c:87-98 | committed writes leave every field alone that they do not touch |
| Flat.ApplyField | src/runtime/log.c:87-98 | a committed field reads back as written when no later entry overlaps it |
| Flat.CommitOrder | src/runtime/log.c:87-98 | pairwise disjoint entries give the same disk in every order |
| Flat.CommitOrderNeedsDisjoint | src/runtime/log.c:87-98 | for two writes of one bit with different values the order does matter |
| Pread.Io.FetchLine | src/runtime/rt-pread/cache.c:47-103 | the slot holds the wanted line of the file, other slots are untouched |
| Pread.Io.GetUnaligned | src/runtime/rt-pread/cache.c:105-170 | a read across two lines returns the whole bytes of the field; its two lines do not evict each other |
| Pread.Io.CacheGet | src/runtime/rt-pread/cache.c:172-234 | a byte-aligned read through the cache is the read of the file |
| Pread.Io.DropBytes | src/runtime/rt-pread/cache.c:236-259 | no line that holds one of the written bytes stays valid, every other slot is unchanged or invalid |
| Pread.Io.WriteBytes | src/runtime/rt-pread/io.c:214-230 | the file holds the new bytes and every valid line equals the file |
| Pread.Io.WriteBit | src/runtime/rt-pread/io.c:136-167 | the read-modify-write changes one bit |
| Pread.Io.Write | src/runtime/rt-pread/io.c:169-212 | a write through the cache acts on the file as the flat backend acts on its bytes |
| Pread.MaskWord | src/runtime/rt-pread/cache.c:172-234 | a word loaded past its field is cut down to the field although the masks for 6 and 7 bytes are too wide |
| PhysRead.SwapBytes | src/runtime/io.c:63-97 | reverses the bytes for the counts that it supports |
| PhysRead.ReadMisaligned | src/runtime/io.c:27-61 | the little-endian misaligned read is the LSB-first slice, for all widths 1 to 63 |
| PhysRead.ReadMisalignedSwapped | src/runtime/io.c:99-137 | the swapped misaligned read is the MSB-first slice for fields that reach the end of their first byte |
| PhysRead.GetLocalPhys | src/runtime/rt-pread/io.c:22-65 | the physical read in both byte orders; an aligned read that is not whole bytes is not swapped |
| PhysRead.AlignedReadExact | src/runtime/rt-pread/cache.c:105-234 | an aligned read is the slice, on every file that has its lines, if and only if it stays in a line or has whole bytes |
| WriteLog.Log.Start | src/runtime/log.c:81-85 | an open, empty log |
| WriteLog.Log.Add | src/runtime/log.c:106-125 | the entry is appended to the pending writes |
| WriteLog.Log.Commit | src/runtime/log.c:87-98 | the disk is the pending writes applied in order, and the log is empty |
| WriteLog.Log.Stop | src/runtime/log.c:100-104 | only an empty log is stopped |
| WriteLog.Log.Steal | src/runtime/io.c:180-184 | the pending writes move to a log of their own and this one is stopped |
| Session.System.Do | src/runtime/rt-pread/io.c:22-230 | one operation of the storage layer is one step of the flat machine |
| Session.System.Run | src/runtime/rt-pread/cache.c:47-259 | over every run of reads, writes and log operations the caller sees what the flat machine shows, and its disk is left |
| Session.Isolation | src/runtime/log.c:75-129 | until a commit or a direct write the disk does not change |
| Session.Pending | src/runtime/log.c:106-125 | an open log holds exactly what was added since it was started, in order |
| Session.Transaction | src/runtime/log.c:75-129 | commit applies the logged writes to the disk as it was at the start |
| Session.StolenLast | src/runtime/writepkt.c:94-123 | for disjoint logs, committing relink before the stolen replace log is the same as after it |
| Session.ReadAfterStore | src/runtime/rt-pread/io.c:169-212 | a write followed by a read returns the value; disjoint fields keep theirs |
| Packets.DoWpkt | src/runtime/io.c:145-171 | a packet and its nested conditional packets log a sequence that depends only on the disk and the parameters |
| Packets.DoCalls | src/runtime/io.c:162-168 | the writes of the calls whose condition holds, in order |
| Relocate.PhysCopy | src/runtime/type_info.c:564-605 | the copy through a 4096-byte buffer is the copy of the block |
| Relocate.WpktCommit | src/runtime/writepkt.c:59-73 | a packet in a transaction of its own applies its writes |
| Relocate.WpktRelocate | src/runtime/writepkt.c:39-127 | the disk is that of allocation, copy, then relink and replace both computed from the same staged disk |
| FatChain.MovedChain | fs/vfat.fsl:96-105 | the moved table has the same chain with one link replaced |
| FatChain.DisjointChain | fs/vfat.fsl:96-105 | disjoint chains are the same in the moved table |
| FatChain.MovedFree | fs/vfat.fsl:52-56 | the old cluster is free, the new one is not, the amount of free space is the same |
| Vfat.FatChainNthCnum | fs/vfat_func.fsl:109-119 | the walk along the table as a function of the disk |
| Vfat.TypeKeepsMarkers | fs/vfat_func.fsl:53-63 | no cluster is numbered like the bad and end markers; for FAT16 this follows from the cluster counts of the type |
| Vfat.NthOnChain | fs/vfat_func.fsl:109-131 | on a chain the i-th number is link i, and one past the last link it is the end marker |
| Vfat.EntryBytes | fs/vfat_type.fsl:140-149 | the entry of a cluster in any table is a little-endian number of two or four bytes |
| Vfat.ClustersFollow | fs/vfat_func.fsl:135-135 | cluster 2 is the first one, and the clusters follow each other |
| Vfat.DeBytes | fs/vfat_type.fsl:61-73 | attributes, first cluster and size by the bytes 11, 20, 21, 26, 27 and 28 to 31 of a directory entry |
| Vfat.FileBits | fs/vfat_func.fsl:275-280 | a regular file has attribute bits 3, 4 and 6 clear |
| Vfat.CountHolds | fs/vfat_func.fsl:202-209 | the cluster count is the least number of clusters that hold the file |
| Vfat.WriteFatNWrites | fs/vfat.fsl:44-50 | the recursive packet writes the entry of every copy of the table from n on |
| Vfat.DeCnWrites | fs/vfat.fsl:86-94 | the packet writes the two halves of the first cluster number |
| Vfat.DeUpdate | fs/vfat.fsl:86-94 | the two halves read back as the new first cluster |
| Vfat.RelinkWrites | fs/vfat.fsl:97-105 | relink writes the directory entry for link 1, else the previous link, and then the successor of the new cluster |
| Vfat.FatUpdate | fs/vfat.fsl:42-50 | the writes change one entry in every table and nothing outside the tables |
| Vfat.CopiedView | fs/vfat.fsl:52-53 | allocation and copy change the entry of the new cluster and its contents, nothing else |
| Vfat.LinkedView | fs/vfat.fsl:55-105 | what relink and replace change |
| Vfat.RelocatedIsMoved | fs/vfat_type.fsl:45-58 | the protocol with the vfat packets can run and gives the described disk |
| Vfat.MovedTables | fs/vfat.fsl:42-56 | the first table is the moved table, and all copies agree if they did before |
| Vfat.MovedData | fs/vfat.fsl:86-105 | the new cluster has the old contents, the file starts where it should, and no other bit outside the tables changes |
| Vfat.MovedFile | fs/vfat.fsl:96-105 | link j becomes f, first and last link included; size and contents are kept, the old cluster is free, free space is conserved |
| Vfat.OtherFile | fs/vfat.fsl:96-105 | a disjoint file keeps its chain, size and contents |
| Volume.RelocateInVolume | src/runtime/writepkt.c:39-127 | relocation in a volume of disjoint files keeps all files, all data, equal tables and the amount of free space |
| Bitmap.Bmp.Mark | src/runtime/bitmap.c:50-118 | exactly the bits of the range change, to the wanted value |
| Bitmap.Bmp.IsSet | src/runtime/bitmap.c:143-148 | whether the bit is set |
| Bitmap.Bmp.CountContig | src/runtime/bitmap.c:150-168 | the length of the maximal run of equal bits at an offset |
| Choice.ChoiceCache.constructor | src/runtime/choice.c:7-37 | a choice is available exactly when the condition holds for it |
| Choice.ChoiceCache.FindAvail | src/runtime/choice.c:46-75 | complete first fit: the least start with enough consecutive choices, or -1 exactly when there is none |
| Defrag.Tool.IsFragmented | src/tool/defragtool.c:17-51 | true exactly when the selected links are not consecutive |
| Defrag.Tool.LoadChoices | src/runtime/choice.c:27-31 | after loading, a choice is available if and only if its cluster is free on the disk |
| Defrag.Tool.MoveLink | src/tool/defragtool.c:103-110 | one link moves to an available, hence free, cluster, which alone leaves the cache; free space swaps it for the old cluster |
| Defrag.Tool.MoveAll | src/tool/defragtool.c:97-111 | after all moves the chain is cc_begin, cc_begin + 1, and so on, with the same contents, and exactly these choices are taken |
| Defrag.Tool.FindSpace | src/tool/defragtool.c:77-85 | the first run of choices from the cursor on, or from the start when there is none behind it, or -1 exactly when there is none at all |
| Defrag.Tool.DoDefrag | src/tool/defragtool.c:53-116 | a file is moved if and only if it is fragmented and there is room among the choices that were free when the cache was loaded and are not taken since; it goes to the first such run from the cursor on, or else from the start, and the cursor moves on; otherwise the disk is the same |
| Defrag.MovedRun | src/tool/defragtool.c:97-111 | on the disk after all moves, looking up link j of the file gives cc_begin + j - 1 |
| Runs.DefragAll | src/tool/defragtool.c:53-116 | over all files in order: a file is moved if and only if it is fragmented and enough choices in a row were free on the first disk and are not taken by files before it, and then to such choices; every other chain is as it was; all data, table copies and free space are intact |
| Runs.ChoiceFind | src/tool/scattertool.c:29-54 | the least available choice from the first of eleven random bases that has one, or -1 if and only if none has; then the cache is exactly the free choices again, at most ten times |
| Runs.ScatterLink | src/tool/scattertool.c:59-90 | a link that is drawn moves to that answer, which leaves the cache; else the disk is the same; all files keep their data |
| Runs.ScatterFile | src/tool/scattertool.c:92-121 | every link up to the cluster count is treated so, in order; all files keep their data and the cache stays sound |
| Runs.ScatterAll | src/tool/scattertool.c:92-121 | the same over all files of a volume, from the free choices of the first disk on |
| Runs.RunChains | src/tool/scattertool.c:92-121 | after a run every link of every file is at its target, or where it was if it has none |
| Runs.TargetExactly | src/tool/scattertool.c:59-90 | a link has a target if and only if it is drawn, always at 99 percent or more, and a known choice is at or behind one of its eleven bases |
| Runs.BaseRange | src/tool/scattertool.c:35-38 | every choice but the last can be a base |
| Minix.GetNthMetaV1Bnum | fs/minix_func.fsl:133-164 | the lookup as a function of the pointer tree, error value included |
| Minix.InodeBytes | fs/minix_type.fsl:60-70 | the pointers in the inode by their bytes |
| Minix.BlockBytes | fs/minix_func.fsl:133-164 | the pointers in pointer blocks by their bytes |
| Minix.PointerOrder | fs/minix_func.fsl:133-164 | offsets are numbered in order, every pointer block before the blocks it points to |
| Minix.ZoneOrder | fs/minix_func.fsl:68-68 | the first data zone has bit 1 of the map, consecutive blocks have consecutive bits |
| Minix.RelinkWrites | fs/minix.fsl:31-55 | exactly one clause fires and writes the pointer of the offset; at bindir_base_v1() none fires |
| Minix.MovedMeta | fs/minix.fsl:29-55 | the lookup gives the new block at the offset and the old answers elsewhere, holes included, for data, indirect and double-indirect blocks |
| Minix.MovedExactly | fs/minix.fsl:31-55 | and so exactly when the offset is not bindir_base_v1(), over every offset whose pointer is in the inode or in a pointer block of the file |
| Minix.SkippedMeta | fs/minix.fsl:43-46 | at bindir_base_v1() every lookup gives the old answer |
| Minix.MovedZones | fs/minix.fsl:29-30 | in the zone map the new block is used, the old one free, all others as before |
| Minix.MovedFile | fs/minix_type.fsl:46-59 | the file is a file of distinct used blocks again, if and only if the offset is not bindir_base_v1() |
| Minix.MovedCount | fs/minix.fsl:29-30 | the number of used zones is conserved |
| Minix.MovedContent | src/runtime/writepkt.c:75-78 | every block but the pointer block that was relinked has its contents |
| Minix.OtherMeta | fs/minix.fsl:29-55 | every lookup of a file that shares no block gives the old answer |
| Minix.OtherFile | src/runtime/writepkt.c:39-127 | such a file is a file of distinct used blocks still |
| Minix.OtherContent | src/runtime/writepkt.c:39-127 | and its blocks have their contents |
| Minix.RelocatedIsMoved | fs/minix_type.fsl:46-59 | the protocol with the minix packets can run and gives the described disk |
| Minix.RelocateBlock | fs/minix_type.fsl:46-59 | the rule on a disk: the map is updated at one offset and the file stays a file |
| Ext2.GetNthBlknum | fs/ext2_func.fsl:104-164 | the lookup through direct, indirect and double-indirect pointers as a function of the tree |
| Ext2.InodeBytes | fs/ext2_type.fsl:207-211 | the pointers in the inode by their bytes |
| Ext2.BlockBytes | fs/ext2_func.fsl:104-164 | the pointers in pointer blocks by their bytes |
| Ext2.PointerOrder | fs/ext2_func.fsl:104-164 | data blocks are numbered in order through the direct, indirect and double-indirect pointers |
| Ext2.DescriptorBytes | fs/ext2_type.fsl:66-74 | bitmap block and free count of a group by the bytes of its descriptor |
| Ext2.BlockNumber | fs/ext2_func.fsl:4-20 | a block is its group times the blocks per group plus its index, counted from the first data block: 0, or 1 for blocks of 1024 bytes |
| Ext2.GroupsHold | fs/ext2_func.fsl:11-16 | the number of groups is the least that holds all blocks |
| Ext2.UsedByte | fs/ext2.fsl:52-64 | the bit of a block by the byte of its group bitmap |
| Ext2.AllocWrites | fs/ext2.fsl:52-64 | the packets write the bit of the block and the count of its group |
| Ext2.RelinkWrites | fs/ext2.fsl:18-29 | for every block in range exactly one clause fires, and writes the pointer to that block |
| Ext2.GroupInjective | fs/ext2_func.fsl:4-5 | group and index determine the block, with the offset that bn2bmpidx adds |
| Ext2Move.MovedBlk | fs/ext2.fsl:18-29 | relink is a map update over the whole tree, pointer blocks and holes included |
| Ext2Move.MovedFile | fs/ext2_type.fsl:186-191 | the file is a file of distinct used blocks again |
| Ext2Move.FinishedUsed | fs/ext2.fsl:52-64 | the new block is used, the old one free, all other bits as before |
| Ext2Move.FinishedCounted | fs/ext2.fsl:59-64 | with count c written by replace, all counts are right if and only if c is the old count, plus one when the groups differ |
| Ext2Move.MovedCounted | fs/ext2.fsl:52-64 | every free count is still the number of zero bits of its bitmap, also when both blocks share a group |
| Ext2Move.AllocMustCommitFirst | src/runtime/writepkt.c:36-38 | computing replace before the allocation is committed keeps the counts right if and only if the groups differ |
| Ext2Move.MovedTotal | fs/ext2.fsl:52-64 | the sum of the free counts is conserved |
| Ext2Move.MovedContent | src/runtime/writepkt.c:75-78 | every data block of the file has its contents, at its new place |
| Ext2Move.OtherBytes | src/runtime/writepkt.c:39-127 | blocks that are neither a bitmap nor the pointer block, other files' blocks among them, keep their contents |
| Ext2Other.OtherBlk | fs/ext2.fsl:18-29 | every lookup of a file that shares no block, through its own inode, gives the old answer |
| Ext2Other.OtherFile | src/runtime/writepkt.c:39-127 | such a file is a file of distinct used blocks still |
| Ext2Other.OtherContent | src/runtime/writepkt.c:39-127 | and its blocks have their contents |
| Ext2Move.RelocatedIsMoved | fs/ext2_type.fsl:186-191 | the protocol with the ext2 packets can run and gives the described disk |
| Ext2Move.RelocateBlock | fs/ext2_type.fsl:186-191 | the rule on a disk: file, counts and contents are kept |
| Virt.Mapping.constructor | src/runtime/virt.c:428-433 | the initial tags produce no false hit |
| Virt.Mapping.XlateIndex | src/runtime/virt.c:410-426 | find or update of the 8-entry cache gives the offset of the element |
| Virt.Mapping.Xlate | src/runtime/virt.c:52-100 | after any lookups the translation is the uncached one, with the index cut to 32 bits; past the end an unsafe operation reports an error |
| Virt.NarrowSame | src/runtime/virt.c:52-100 | cutting the index changes nothing for fewer than 2^32 source elements |
| Virt.ElementBit | src/runtime/virt.c:77-99 | bit o of source element q is virtual bit srcsz * q + o |
| Virt.InMapping | src/runtime/virt.c:63-72 | the bits of a mapping are exactly those of its source elements |
| Virt.GetNth | src/runtime/virt.c:342-402 | the offset of the element, or an invalid offset exactly when it does not fit |
| Virt.AcceptedExactly | src/runtime/virt.c:305-402 | without empty and wrapping sizes an element exists if and only if the plain sums of sizes place its start and its end inside the mapping |
| Virt.AcceptedPastEnd | src/runtime/virt.c:342-402 | a 32-bit index at or past the bit count is accepted if and only if the elements come back to an earlier offset and one that passes the bounds check recurs at such an index |
| Virt.EndlessExactly | src/runtime/virt.c:342-402 | all 32-bit indices are accepted if and only if the elements loop or as many different ones exist |
| Virt.BoundedExactly | src/runtime/virt.c:342-402 | in a range of fewer than 2^32 bits a list ends if and only if its elements do not loop |
| Virt.LargeBounded | src/runtime/virt.c:342-402 | in any range a list ends when sizes do not wrap and are large enough for the indices |
| Virt.MoreThanIndices | src/runtime/scan.c:343-370 | one-bit elements in 2^33 bits: no offset comes back, and no index ends the list |
| Virt.IndexBelowBits | src/runtime/virt.c:342-402 | if no size wraps the sum, an element that fits has an index below the bit count |
| Virt.NoWrapNeverBack | src/runtime/virt.c:342-402 | and then no element comes back |
| Virt.GetNthBounded | src/runtime/virt.c:342-402 | a 32-bit index at or past the bit count is rejected when the elements do not come back |
| Virt.WrapWithoutReturn | src/runtime/virt.c:365-385 | sizes that wrap once and still end the list |
| Virt.NeverAtZero | src/runtime/type_info.c:303-304 | in a list that ends no later element is at offset 0, as the code asserts |
| Virt.EndpointsSuffice | src/runtime/runtime.c:190-206 | matching endpoints make every byte between match, for elements as long as the reach of the read |
| Virt.EndpointsNotEnough | src/runtime/runtime.c:190-206 | for shorter elements there is a mapping, nowhere at 0, whose endpoints match and whose middle does not |
| Virt.SliceIsVirtual | src/runtime/runtime.c:173-217 | a contiguous read is the byte-by-byte virtual read |
| Virt.SliceMIsVirtual | src/runtime/runtime.c:173-217 | the same in the other bit order |
| Virt.GetLocal | src/runtime/runtime.c:173-217 | the checked read through a mapping is the byte-by-byte virtual read, in the order and of the width that the backend gives |
| TypeGraph.CheckLoop | src/runtime/type_info.c:35-61 | whether an ancestor has the same physical offset and type |
| TypeGraph.Deeper | src/runtime/type_info.c:35-61 | following an instance that passes the check leaves less room, so the depth is bounded |
| Paths.VisitLists | src/runtime/scan.c:110-116 | the recursion lists all events of the tables below an instance, sorted by path: reports of fields, followed pointers and tried virtual elements, and what is found there with all below it |
| Paths.ListedOnce | src/runtime/scan.c:110-116 | the tables determine the events and their order: two such listings are equal |
| Paths.SeenExactly | src/runtime/type_info.c:35-61 | an instance is visited if and only if a line of descent leads to it, by elements of scanned fields, pointers in range and existing virtual elements, none of them at the place of an ancestor |
| Scan.TypeNext | src/runtime/scan.c:169-176 | the four sections of an instance in order |
| Scan.StrongNext | src/runtime/scan.c:270-291 | the next strong field |
| Scan.CondNext | src/runtime/scan.c:186-213 | the next field whose condition holds; absent ones are reported and skipped |
| Scan.ArrayNext | src/runtime/scan.c:235-260 | the next array element that can be followed |
| Scan.PointsNext | src/runtime/scan.c:73-100 | the next points-to table with a range |
| Scan.RangeNext | src/runtime/scan.c:309-334 | the next pointer that can be followed |
| Scan.AllocVirt | src/runtime/type_info.c:266-364 | the element of a virtual type by index, through the search for its offset |
| Scan.VirtNext | src/runtime/scan.c:343-370 | the next virtual element that can be followed; the search ends |
| Scan.Stack.Push | src/runtime/scan.c:393-446 | the frame goes on top; stack, free list and spare entry share nothing |
| Scan.Stack.Pop | src/runtime/scan.c:373-381 | the top frame is removed and its entry freed |
| Scan.StackNext | src/runtime/scan.c:393-412 | one driver step makes exactly one step of the recursion |
| Scan.ScanTypeDeep | src/runtime/scan.c:423-478 | when every list that can be met ends, the scan terminates after the counted number of steps; its events are the root and then exactly the events that the tables lead to, each once, in the lexicographic order of their paths: strong fields, fields with conditions, points-to, virtual types, and in each by table entry and index |
| Scan.ListEndsExactly | src/runtime/scan.c:343-370 | the frame of a virtual list, whose index starts over, is popped at some time if and only if the list is bounded |
| Scan.EndlessList | src/runtime/scan.c:343-370 | element sizes with which that frame is never popped |
| Scan.CursorExact | src/runtime/scan.c:235-260 | the offset carried by an array frame is that of ti_field_off at every index if and only if each element that cannot be followed there has the reported size |
| Arrays.ComputeArrayBits | src/runtime/runtime.c:59-120 | the sum of the element sizes |
| Arrays.FieldOff | src/runtime/type_info.c:900-929 | the looked-up element offset |
| Arrays.LookupAgrees | src/runtime/type_info.c:867-929 | the lookup is the element offset, and the next one is it plus the element's size |
| Arrays.ScanExact | src/runtime/scan.c:235-260 | the running offset is the element offset at every index if and only if each element that cannot be followed at its offset has the reported size |
| Arrays.UniformScan | src/runtime/scan.c:235-260 | for uniform arrays all three agree always |
| Layout.DeclCorrect | src/compiler/symtab_thunkbuilder.cc:172-246 | when its conditions hold, the thunk of a declared field gives the cursor, and the next one the cursor behind its bits |
| Layout.Builder.VisitCond | src/compiler/symtab_thunkbuilder.cc:337-430 | both branches, then the rebase field |
| Layout.Builder.Visit | src/compiler/symtab_thunkbuilder.cc:328-625 | the visitor's state after a statement |
| Layout.CompileExtends | src/compiler/thunk_type.cc:17-33 | field_count gives every made-up field a name of its own, and earlier thunks stay |
| Layout.CompileCorrect | src/compiler/symtab_thunkbuilder.cc:337-430 | whenever the conditions above a statement hold, its thunks give the cursors of the direct walk |
| Layout.CompileAbsent | src/compiler/thunk_fieldoffset_cond.cc:51-94 | a field under a condition that fails is absent and its thunk fails |
| Layout.LayoutCorrect | src/compiler/symtab_thunkbuilder.cc:21-78 | present fields have the offset of the direct walk, absent ones fail, and the size is final cursor minus base, when alignments are powers of two and array counts agree |
| Layout.WalkSets | src/compiler/symtab_thunkbuilder.cc:529-560 | in the direct walk set places the cursor at a distance from the base; bytes count eight bits |
| Layout.WalkSkips | src/compiler/symtab_thunkbuilder.cc:600-625 | skip moves it on |
| Layout.WalkAligns | src/compiler/symtab_thunkbuilder.cc:562-598 | align moves it to the least aligned distance |
| Layout.RightExactlyAtZero | src/compiler/symtab_thunkbuilder.cc:215-218 | this holds for every type, alignments aside, if and only if the type starts at offset 0 |
| Layout.CountedFromZero | src/compiler/symtab_thunkbuilder.cc:215-218 | an array counted by from_base_bits() that gets a wrong size anywhere else |
| Layout.GetSymTab | src/compiler/symtab_thunkbuilder.cc:21-78 | the built table has that property in every such environment |
| Layout.PadDivisor | src/compiler/symtab_thunkbuilder.cc:562-598 | the align padding reaches the next multiple although the subtraction wraps |
| Layout.PadExact | src/compiler/symtab_thunkbuilder.cc:562-598 | and for every cursor exactly when the alignment divides 2^64 or is 2^64 - 1 |
| Layout.FirstWins | src/compiler/thunk_type.cc:17-33 | the thunk of a name is that of its first declaration |
| Layout.SameNameFails | src/compiler/thunk_type.cc:28-31 | a field is present if and only if the conditions of its first declaration hold, and else its thunk fails |
| Layout.SecondBranchFails | src/compiler/thunk_type.cc:28-31 | a name declared in both branches: the walk meets the field in the second and its thunk fails |
| Expr.SimplifySame | src/compiler/binarithop.h:25-54 | folding keeps the value, in the result and in the node left behind, whatever the flags |
| Expr.CopySame | src/compiler/fcall.h:6-15 | copies, which fold call arguments, keep the value |
| Expr.FoldsToNumber | src/compiler/binarithop.h:122-128 | constant arithmetic that was not simplified before folds to its value |
| Expr.FoldAddSub | src/compiler/binarithop.h:163-164 | folded sums and differences are right up to one 2^64, and subtraction undoes addition |
| Expr.FoldMul | src/compiler/binarithop.h:166-166 | folded products are right up to a multiple of 2^64 |
| Expr.FoldDivMod | src/compiler/binarithop.h:165-169 | quotient and remainder make up the dividend; a zero divisor has no value |
| Expr.FoldLShift | src/compiler/binarithop.h:167-167 | a left shift multiplies by a power of two modulo 2^64; 64 and more have no value |
| Expr.FoldRShift | src/compiler/binarithop.h:168-168 | a right shift divides by a power of two; 64 and more have no value |
| Expr.FoldAndOr | src/compiler/binarithop.h:161-162 | and and or hold bit by bit |
| Expr.CallFolds | src/compiler/fcall.h:8-16 | the constant arguments of a call are numbers after it is simplified |
| Expr.RewriteSame | src/compiler/binarithop.h:102-119 | rewriting an identifier evaluates to the old expression with the identifier bound to the replacement's value |
| Expr.RewriteIsSubst | src/compiler/expr.h:50-83 | rewriting an identifier is substitution, also when the replacement mentions it |
| Expr.FoldsExactly | src/compiler/binarithop.h:25-54 | one simplify gives a number if and only if the sides of flagged nodes are numbers already |
| Expr.SecondSimplifyFolds | src/compiler/binarithop.h:25-54 | a second simplify folds all constant arithmetic, whatever the flags |
| Expr.RewriteThenFold | src/compiler/expr.h:50-83 | rewriting an identifier by constant arithmetic and folding computes the expression, however often it occurs |

## Left out

- FAT12, whose 12-bit writes the backend rejects, and relocation of directories, whose
  backreference packets index clusters from 0 where the lookup counts from 1.
- Volumes with more than 32 table copies: the packet of a relink would overflow the 64-entry
  log. Files of zero clusters have no chain to move.
- minix v2 and v3, the ext2 metadata rule "defrag", and triple-indirect blocks.
- Big-endian writes: the code does not swap on write.
- Unions, `pad_phys_bytes`, parameters of array elements and the element index argument in the
  layout compiler; size and element-count thunks are inlined where they are called.
- IdStruct, CondVal and Boolean expressions; the in-place update of expression trees is
  modelled on values, so sharing of nodes between trees is not captured.
- Shallow scans and callbacks that do not ask to continue. Field tables hold typed fields only,
  as the table generator writes them. Arrays of 2^32 elements or more and points-to ranges that
  reach index 2^32 - 1 are left out: there the 32-bit counters start over and the scan is
  endless.
- Reference counts of instances and mappings, and the check that a mapping does not equal its
  parent's.
- Virt.Mapping.Xlate: asks that the index is not negative as a C int, because the cache would
  then leave its table.
- Virt.GetLocal: asks for reads that the backend serves.
- Relocating an offset that is a hole: the code would take block 0 for its block.
- Defrag.Tool.DoDefrag: asks for a chain at least as long as the file size says, because the
  code fails on a link past the end; files without a chain have nothing to move.
- Runs.ChoiceFind: asks for more than one choice, because the code divides by the number of
  choices less one.
- Crash consistency between single committed writes, statistics, hit logs, the smush tool, the
  browsers, the parser and code generation.
