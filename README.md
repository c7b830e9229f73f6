# newfs in Dafny

A model of the core of newfs, a small FUSE file system. The model covers the
helpers in `fs/newfs/src/newfs_utils.c` and the records and macros of
`fs/newfs/include/types.h`:

- the aligned read-modify-write driver layer (`newfs_driver_read`/`write`)
  over a device held as a byte sequence;
- the inode and data bitmaps and their first-fit allocators, kept in
  `array<bv8>` buffers;
- the in-memory tree of dentries and inodes, with sibling chains linked by
  `brother` pointers;
- `newfs_sync_inode`, which writes the tree out, and `newfs_read_inode`, which
  reads it back;
- `newfs_drop_inode`, `newfs_lookup` and the path helpers;
- the layout computed or adopted by `newfs_mount`, and the metadata stored by
  `newfs_umount`.

Modules, in dependency order:

| module | what it holds |
|---|---|
| `Types` | Constants and the C rounding macros (with C's truncating division). `NEWFS_BLKS_SZ`, `NEWFS_INO_OFS`, `NEWFS_DATA_OFS`. The in-memory `Dentry`/`Inode` records and `new_dentry`. The on-disk records with their little-endian byte encodings and round trips. |
| `Driver` | A `Disk` class: device bytes plus the I/O unit. The aligned-window driver read and write loops, proved against `Overwrite`. |
| `Bitmap` | Bit addressing (byte i/8, mask `1 << (i%8)`). The allocator and bit-clear scans as nested loops over an `array<bv8>`, proved against `Alloc`, `AllocAsWritten` and `ClearAt`. |
| `Layout` | The fresh layout of `newfs_mount`, the adopt-if-magic choice, and the record `newfs_umount` stores. |
| `Entries` | Conversion between a dentry and its `newfs_dentry_d` record. Where record k of a directory is stored, as written and corrected. |
| `Store` | The regions of a layout. Which bytes a sync may change. What a sync stores for an inode. A loader `LoadInode` that reads an inode record and its directory entries back. |
| `Sync` | The heap-independent steps of `newfs_sync_inode`: block claiming, storing one entry, writing the inode record. |
| `Load` | The reads of `newfs_read_inode`, as methods proved against `LoadInode`. |
| `Tree` | The dentry/inode graph as an arena value (`Heap`). Its well-formedness `HeapOk`. Head insertion, unlinking, attaching, subtrees (`Desc`), and the arena `newfs_read_inode` builds. |
| `Path` | `newfs_calc_lvl`, `strtok(path, "/")`, `newfs_get_fname`, and the name comparison of `newfs_lookup`. |
| `Drop` | The state `newfs_drop_inode` leaves, as arena values: chains emptied, bits cleared. |
| `Umount` | The three writes of `newfs_umount`, and what the next mount finds. |
| `Fs` | The class `Newfs`, standing for `struct newfs_super` while mounted. Its fields are the layout, the two bitmap arrays, the device and the arena of dentries and inodes. It holds every operation on that state: chain operations, allocators, sync, read, drop, lookup, umount. |

Modelling choices:

- Pointers to heap objects are indices into two maps: `ds` holds dentries and
  `ins` holds inodes.
- Ghost fields describe the shape the pointers must have:
  - `chain` gives each inode's sibling list;
  - `owner` gives each chained dentry's directory;
  - `rank` keeps the inode graph acyclic.
- `Valid()` ties these together. Every method that changes the tree states
  its new arena as a function of the old one (`InsertHead`, `RemoveAt`,
  `AttachInode`, `ReadStep`, `Emptied`, ...). Lemmas prove that each such
  function keeps the tree well formed.
- The device is the `Disk` class holding a byte sequence.
- Sync and read are tied by a round trip: what a successful sync stores, the
  loader reads back (`Fs.Newfs.SyncedLoads`).
- Integer fields stored on disk are 32-bit little-endian, two's complement.
  `dir_cnt` is wrapped to 32 bits explicitly.

Where the code departs from what it evidently means to do, the model keeps
an as-written member that shows the discrepancy. The rest of the model uses
the corrected behaviour; see "## Findings".

## Model

| member | source | states |
|---|---|---|
| Types.RoundDown | fs/newfs/include/types.h:65 | NEWFS_ROUND_DOWN with C division: a multiple of `round`, equal to `value` when already a multiple, and within `round` of `value` towards zero (for v ≥ 0: a multiple ≤ v and > v − r) |
| Types.RoundUp | fs/newfs/include/types.h:66 | NEWFS_ROUND_UP with C division: a multiple of `round`, equal to `value` when already a multiple, and for v ≥ 0 the least multiple ≥ v (< v + r) |
| Types.RoundingIdempotent | fs/newfs/include/types.h:65-66 | rounding twice is rounding once, for both macros |
| Types.CDiv | fs/newfs/src/newfs_utils.c:648 | C `/` truncates toward zero: the quotient brackets the dividend from below for a ≥ 0 and from above for a < 0 |
| Types.CModZeroIsMultiple | fs/newfs/include/types.h:65-66 | the macros' `% == 0` test (C remainder) holds exactly when the value is a multiple |
| Types.InoRecordsDisjoint | fs/newfs/include/types.h:72 | NEWFS_INO_OFS of distinct inode numbers addresses non-overlapping 40-byte records |
| Types.DataBlocksDisjoint | fs/newfs/include/types.h:74 | NEWFS_DATA_OFS of distinct block numbers addresses non-overlapping blocks |
| Types.DecodeFileType | fs/newfs/include/types.h:12-16 | a stored type tag decodes exactly when it is NEWFS_REG_FILE (0) or NEWFS_DIR (1), and back to that code |
| Types.NewDentry | fs/newfs/include/types.h:142-152 | new_dentry: a 128-byte name holding the given bytes then zeros, the given ftype, ino −1, no inode, parent or brother |
| Types.NewDentryNameOf | fs/newfs/include/types.h:69-70 | the name NEWFS_ASSIGN_FNAME copies into the zeroed buffer is read back by strlen unchanged |
| Types.CStrLen | fs/newfs/include/types.h:70 | strlen on a buffer: the first NUL, or the buffer's end when it has none |
| Types.I32RoundTrip | fs/newfs/include/types.h:157-191 | a 32-bit field decodes to the value encoded, negative values included |
| Types.I32sRoundTrip | fs/newfs/include/types.h:157-191 | consecutive 32-bit fields decode to the values encoded |
| Types.SuperDRoundTrip | fs/newfs/include/types.h:157-174 | the 48-byte newfs_super_d record read back is the record written |
| Types.InodeDRoundTrip | fs/newfs/include/types.h:176-184 | the 40-byte newfs_inode_d record (six block pointers) read back is the record written |
| Types.DentryDRoundTrip | fs/newfs/include/types.h:186-191 | the 136-byte newfs_dentry_d record (128-byte name, type, ino) read back is the record written |
| Types.NameBytesRoundTrip | fs/newfs/include/types.h:188 | a name buffer copied to bytes and back is unchanged |
| Driver.Overwrite | fs/newfs/src/newfs_utils.c:74-95 | the device after a write: the written range reads back as the input and every other byte keeps its value |
| Driver.AlignedWindow | fs/newfs/src/newfs_utils.c:48-50 | the aligned window starts and ends on I/O-unit boundaries, contains the request at offset `bias` < io, and lies within the device |
| Driver.SpliceWindow | fs/newfs/src/newfs_utils.c:80-91 | reading the window, copying the input in at `bias` and writing the window back is an overwrite of the request's range |
| Driver.Disk.ReadUnit | fs/newfs/src/newfs_utils.c:58 | ddriver_read returns the I/O unit at the position |
| Driver.Disk.WriteUnit | fs/newfs/src/newfs_utils.c:88 | ddriver_write replaces the I/O unit at the position and nothing else |
| Driver.Disk.ReadWindow | fs/newfs/src/newfs_utils.c:54-61 | the read loop returns the window's bytes, one unit per turn |
| Driver.Disk.WriteWindow | fs/newfs/src/newfs_utils.c:84-91 | the write loop stores the window, one unit per turn, changing nothing outside it |
| Driver.Disk.DriverRead | fs/newfs/src/newfs_utils.c:47-65 | newfs_driver_read returns exactly the bytes of [offset, offset + size) |
| Driver.Disk.DriverWrite | fs/newfs/src/newfs_utils.c:74-95 | newfs_driver_write leaves the device equal to `Overwrite`: the input in its range, the rest of the window and device unchanged |
| Bitmap.SetBitOnly | fs/newfs/src/newfs_utils.c:166 | `|= 1 << bit` at byte i/8 sets bit i and leaves every other bit as it was |
| Bitmap.ClearBitOnly | fs/newfs/src/newfs_utils.c:251 | `&= ~(1 << bit)` at byte i/8 clears bit i and leaves every other bit as it was |
| Bitmap.ClearUndoesSet | fs/newfs/src/newfs_utils.c:166 | clearing a bit that was just set restores the buffer |
| Bitmap.FirstClear | fs/newfs/src/newfs_utils.c:160-175 | the scan's answer: the lowest clear bit at or after `from`, or −1 when all are set |
| Bitmap.AllocFirstFit | fs/newfs/src/newfs_utils.c:160-178 | the corrected allocator returns the lowest clear index below max and sets exactly that bit. It fails with −ENOSPC, leaving the buffer alone, exactly when every bit below max is set |
| Bitmap.FreeClearsOnly | fs/newfs/src/newfs_utils.c:240-262 | newfs_free_data_blk: an index ≥ max_dno gives −1 and no change; otherwise NONE and exactly that bit cleared |
| Bitmap.FreeUndoesAlloc | fs/newfs/src/newfs_utils.c:240-262 | freeing the index just allocated restores the bitmap and returns NONE |
| Bitmap.FreedIndexReusedFirst | fs/newfs/src/newfs_utils.c:220-237 | an index freed below every clear bit is the next one allocated |
| Bitmap.AllocAsWrittenEscapesMax | fs/newfs/src/newfs_utils.c:164-178 | as written, a full bitmap below max fails with −ENOSPC but leaves bit max set, and the next call returns max + 1 |
| Bitmap.AllocStaysBelowMax | fs/newfs/src/newfs_utils.c:177 | the corrected allocator returns an index below max or −ENOSPC with the buffer untouched |
| Bitmap.ScanClear | fs/newfs/src/newfs_utils.c:160-175 | the nested byte/bit loop finds a clear bit iff one exists, and stops at `FirstClear` (counting bits passed in `cursor`) |
| Bitmap.SetBitIn | fs/newfs/src/newfs_utils.c:166 | the array after the `|=` is `SetBit` of the old contents |
| Bitmap.AllocScanAsWritten | fs/newfs/src/newfs_utils.c:160-178 | the allocator loop as written, with its buffer and return value equal to `AllocAsWritten` |
| Bitmap.AllocScan | fs/newfs/src/newfs_utils.c:220-237 | the allocator loop, corrected: its buffer and return value equal `Alloc` |
| Bitmap.ClearScan | fs/newfs/src/newfs_utils.c:382-395 | the bit-clear loop of newfs_drop_inode and newfs_free_data_blk clears the bit of the index when the buffer has it, and changes nothing otherwise |
| Layout.BlkSz | fs/newfs/src/newfs_utils.c:632 | sz_blk = sz_io << 1 is twice the I/O unit |
| Layout.OneSuperBlock | fs/newfs/src/newfs_utils.c:644 | super_blks is 1 whenever a block holds the 48-byte record |
| Layout.TotNumFacts | fs/newfs/src/newfs_utils.c:645 | tot_num is the number of whole blocks of the device |
| Layout.InodePerBlkFacts | fs/newfs/src/newfs_utils.c:649 | inode_per_blk ≥ 1 records fit in a block |
| Layout.MaxInoFacts | fs/newfs/src/newfs_utils.c:648-650 | max_ino is the estimate rounded up to a multiple of inode_per_blk, below estimate + inode_per_blk, and the estimate fits in the blocks left |
| Layout.InodeBlksFacts | fs/newfs/src/newfs_utils.c:658-660 | inode_blks × inode_per_blk = max_ino, the table holds max_ino records and takes no more blocks than are left |
| Layout.FreshLayoutRegions | fs/newfs/src/newfs_utils.c:642-666 | a fresh layout places superblock, inode bitmap (1 block), data bitmap (1 block), inode table and data region back to back. max_ino is a multiple of inode_per_blk, max_dno = tot_num − 3 − inode_blks, and the data region ends at the last whole block |
| Layout.FreshMaxInoCoversEstimate | fs/newfs/src/newfs_utils.c:648-650 | the fresh max_ino is at least the estimate and less than one table block above it |
| Layout.MountAdoptsIffMagic | fs/newfs/src/newfs_utils.c:642-680 | newfs_mount adopts the record read iff its magic number is NEWFS_MAGIC_NUM, and then adopts it verbatim |
| Layout.UmountThenMountAdopts | fs/newfs/src/newfs_utils.c:732-748 | the record newfs_umount writes at offset 0 makes the next mount adopt the in-memory layout with the magic number |
| Entries.ChildOf | fs/newfs/src/newfs_utils.c:460-462 | the dentry read_inode builds from a record: padded name, stored type and ino, the directory's dentry as parent, no brother or inode |
| Entries.RecordRoundTrip | fs/newfs/src/newfs_utils.c:288-290 | a dentry written as a record and rebuilt by read_inode has its name, type and ino back |
| Entries.PaddedRebuilt | fs/newfs/src/newfs_utils.c:460 | new_dentry on the stored name rebuilds a padded name buffer exactly |
| Entries.NameIsCString | fs/newfs/src/newfs_utils.c:460 | the bytes before a name's first zero are a C string no longer than the buffer |
| Entries.PerBlk | fs/newfs/src/newfs_utils.c:305 | whole 136-byte records per block: at least one, all inside the block |
| Entries.BlocksFor | fs/newfs/src/newfs_utils.c:305-308 | the blocks n records need, `per` to a block: the least b with n ≤ b·per, 0 iff n = 0 |
| Entries.BlocksForPastSix | fs/newfs/src/newfs_utils.c:305-308 | more records than six blocks hold need more than six blocks |
| Entries.SlotOfs | fs/newfs/src/newfs_utils.c:302 | the byte position of record k in its block leaves room for the record |
| Entries.EntryInBlock | fs/newfs/src/newfs_utils.c:302-307 | record k lies inside block `ptrs[k / per]` |
| Entries.EntriesDisjoint | fs/newfs/src/newfs_utils.c:302-307 | different records of a directory with distinct blocks occupy disjoint bytes |
| Entries.FullAt | fs/newfs/src/newfs_utils.c:305 | the count at which `cnt * 136 >= sz_blk` first holds |
| Entries.PackingAsWrittenDisagrees | fs/newfs/src/newfs_utils.c:302-308 | as written, with 1024-byte blocks: record 9 is written at pointer 2 but read at pointer 1, record 7 runs past its block, and record 13 needs pointer slot 6 of six |
| Entries.ReadSlotAsWrittenOverrunsBlock | fs/newfs/src/newfs_utils.c:449-454 | as written, with 1024-byte blocks: read_inode takes record 7 from pointer 0, offset 952, past the end of the block; the corrected packing reads it at pointer 1, offset 0 |
| Entries.ReadGuardAsWrittenOverruns | fs/newfs/src/newfs_utils.c:449-454 | as written, the guard lets read_inode use pointer indices 6 and 7 of the six-slot array |
| Entries.PackingCorrected | fs/newfs/src/newfs_utils.c:302-308 | the corrected packing keeps each record inside its block, and fewer than 6·per records need fewer than six pointers |
| Store.GeometryFacts | fs/newfs/src/newfs_utils.c:652-661 | the inode table ends before the data region, which ends within the device |
| Store.InodeRecordInTable | fs/newfs/src/newfs_utils.c:332 | the inode record of an ino below max_ino lies in the table |
| Store.DataBlockInDevice | fs/newfs/src/newfs_utils.c:282 | a data block below max_dno lies past the table and inside the device |
| Store.AllocGrows | fs/newfs/src/newfs_utils.c:220-237 | allocation only sets bits; a block handed out was free; a failure is −ENOSPC, leaves the bitmap as it was, and happens only when every bit below the maximum is set |
| Store.ClaimedAppend | fs/newfs/src/newfs_utils.c:306 | a block free before the sync and just taken joins the claimed blocks |
| Store.WriteTableConfined | fs/newfs/src/newfs_utils.c:332 | a write in the inode table changes only table bytes |
| Store.WriteFreeBlockConfined | fs/newfs/src/newfs_utils.c:291 | a write in a block free in the bitmap changes only free-block bytes |
| Store.TakenBlockKept | fs/newfs/src/newfs_utils.c:264-338 | a block taken in the bitmap keeps its bytes across a confined change |
| Store.EntryAfterWrite | fs/newfs/src/newfs_utils.c:291 | a write that misses a stored record keeps it |
| Store.EntriesAfterWrite | fs/newfs/src/newfs_utils.c:291-302 | writing record k stores it and keeps records 0..k−1 |
| Store.EntriesAfterConfined | fs/newfs/src/newfs_utils.c:297-299 | records in taken blocks survive the nested syncs |
| Store.EntriesAfterTableWrite | fs/newfs/src/newfs_utils.c:332 | the inode record write keeps every entry record |
| Store.EntriesPadded | fs/newfs/src/newfs_utils.c:329 | storing the pointer array with its sentinel and leftover slots does not move any record |
| Store.BlocksForFilled | fs/newfs/src/newfs_utils.c:305-308 | the blocks in use once records fill `blocks` blocks are those the records need |
| Store.FileBlocks | fs/newfs/src/newfs_utils.c:311-327 | the blocks a regular file of `size` bytes claims: one per block of content, at most six |
| Store.FileBlocksUnique | fs/newfs/src/newfs_utils.c:311-327 | FileBlocks is the only count within those bounds |
| Store.FileLoopAsWrittenOverflows | fs/newfs/src/newfs_utils.c:315-327 | as written, a file of seven 1024-byte blocks stores a seventh pointer (index 6) where the corrected count is six |
| Store.Pad | fs/newfs/src/newfs_utils.c:329 | the pointer array of the stored record: the claimed blocks, −1 in the next slot when one is left, and the later slots holding what the uninitialised local array (line 265) held |
| Store.EntryAt | fs/newfs/src/newfs_utils.c:454-461 | the record read at one slot: when it is read, it has a 128-byte name and an ino that fits 32 bits; the model refuses a type tag other than 0 or 1, which the source passes on unchecked |
| Store.StoredEntryLoads | fs/newfs/src/newfs_utils.c:454-461 | a record stored at slot k is read back at that slot, unchanged |
| Store.LoadEntries | fs/newfs/src/newfs_utils.c:447-464 | records 0..n−1 of a directory: when they are read, exactly n of them (none for n < 0), each well formed |
| Store.LoadInode | fs/newfs/src/newfs_utils.c:432-465 | what read_inode finds: a 32-bit size and entries only for a directory; the model refuses a stored ino outside the inode table, which the source copies unchecked |
| Store.StoredEntriesLoad | fs/newfs/src/newfs_utils.c:447-464 | stored records are read back in order |
| Store.StoredLoads | fs/newfs/src/newfs_utils.c:264-338 | what a sync stores for an inode, LoadInode reads back: number, size and, for a directory, the entries in stored order |
| Sync.ClaimBlocks | fs/newfs/src/newfs_utils.c:311-327 | the regular-file loop claims FileBlocks(size) distinct blocks that were free, or fails with −ENOSPC, and then only with the data bitmap full below max_dno; bits are only set |
| Sync.UncheckedClaimAsWritten | fs/newfs/src/newfs_utils.c:305-307 | as written, with the data bitmap full: the claim stores −ENOSPC as a block pointer, and the next record's block lies wholly below the data region |
| Sync.FirstDirBlock | fs/newfs/src/newfs_utils.c:280-283 | the first block of a non-empty directory is claimed, or −ENOSPC with the bitmap unchanged and full below max_dno |
| Sync.StoreEntry | fs/newfs/src/newfs_utils.c:288-308 | one turn of the directory loop: claims a block when the last one is full, then writes record k in its slot, keeping the loop's progress; it fails only when record k is past what six blocks hold or the data bitmap is full |
| Sync.NewBlockProgress | fs/newfs/src/newfs_utils.c:305-307 | claiming a block when the last is full starts a new block at slot 0 |
| Sync.WriteEntryProgress | fs/newfs/src/newfs_utils.c:291-302 | writing record k at the offset stores it and keeps the earlier records |
| Sync.EntrySlotInDevice | fs/newfs/src/newfs_utils.c:302 | the offset of record k is its slot in the last claimed block, inside the device |
| Sync.DirProgressConfined | fs/newfs/src/newfs_utils.c:297-299 | a nested sync, confined and only setting bits, keeps the loop's progress |
| Sync.DirProgressDone | fs/newfs/src/newfs_utils.c:309 | at the end of the chain exactly BlocksFor(n) blocks hold the n records |
| Sync.DirCountFits | fs/newfs/src/newfs_utils.c:273 | a directory whose records fit six blocks has a dir_cnt that fits 32 bits |
| Sync.WriteInodeRecord | fs/newfs/src/newfs_utils.c:329-336 | the inode record, with the claimed pointers followed by the −1 sentinel, is written to its table slot, confined, keeping every entry record |
| Load.LoadEntriesNoneStays | fs/newfs/src/newfs_utils.c:454-458 | after an unreadable record no longer prefix is readable |
| Load.SlotOfRecord | fs/newfs/src/newfs_utils.c:449-454 | record blk·per + cnt sits in block blk at slot cnt |
| Load.LoadNext | fs/newfs/src/newfs_utils.c:447-464 | reading the next slot extends the loaded prefix, or fails when the slot is unreadable |
| Load.ReadEntries | fs/newfs/src/newfs_utils.c:445-464 | the read loop returns `LoadEntries` of the device |
| Load.ReadRecords | fs/newfs/src/newfs_utils.c:432-465 | read_inode's reads return `LoadInode` of the device |
| Path.CalcLvl | fs/newfs/src/newfs_utils.c:23-38 | newfs_calc_lvl is 0 for "/" and the number of '/' otherwise |
| Path.SlashesAppend | fs/newfs/src/newfs_utils.c:31-36 | the slash count of a concatenation is the sum of the counts |
| Path.RunLen | fs/newfs/src/newfs_utils.c:545 | the run of non-'/' characters at the head: no '/', followed by '/' or the end |
| Path.Tokens | fs/newfs/src/newfs_utils.c:545-586 | every token strtok returns is non-empty and '/'-free |
| Path.Join | fs/newfs/src/newfs_utils.c:545 | a joined path is empty iff there are no components, and starts with '/' otherwise |
| Path.TokensOfJoin | fs/newfs/src/newfs_utils.c:545-586 | strtok splits a joined path back into its components |
| Path.SlashesOfJoin | fs/newfs/src/newfs_utils.c:23-38 | a joined path has one '/' per component |
| Path.LvlCountsTokens | fs/newfs/src/newfs_utils.c:532-586 | for a path FUSE hands over, total_lvl is the number of strtok tokens |
| Path.GetFname | fs/newfs/src/newfs_utils.c:11-15 | newfs_get_fname: the '/'-free suffix after the last '/' |
| Path.GetFnameAfter | fs/newfs/src/newfs_utils.c:11-15 | what follows the last '/' is exactly what newfs_get_fname returns |
| Path.GetFnameIsLastToken | fs/newfs/src/newfs_utils.c:11-15 | newfs_get_fname of a path is its last component |
| Path.PrefixMatchAsWritten | fs/newfs/src/newfs_utils.c:566 | as written, component "ab" matches a dentry named "abc" |
| Path.MatchesIsTerminatedPrefix | fs/newfs/src/newfs_utils.c:566 | the intended comparison is the memcmp as written plus a terminator right after the component, both ways |
| Tree.Position | fs/newfs/src/newfs_utils.c:124-139 | the first index of a dentry in a chain |
| Tree.InsertHeadOk | fs/newfs/src/newfs_utils.c:103-113 | head insertion keeps the tree well formed; the chain becomes [d] + old chain and dir_cnt grows by 1 |
| Tree.LinkedCons | fs/newfs/src/newfs_utils.c:108-109 | a dentry whose brother is the old head heads the chain extended by it |
| Tree.InsertHeadOtherChains | fs/newfs/src/newfs_utils.c:103-113 | head insertion leaves every other chain linked as before |
| Tree.RemoveAtOk | fs/newfs/src/newfs_utils.c:121-146 | unlinking position k keeps the tree well formed, removes just that dentry in order, lowers dir_cnt by 1, and leaves the dentry owned by nobody |
| Tree.LinkedRemove | fs/newfs/src/newfs_utils.c:126-139 | unlinking through the head (k = 0) or the predecessor's brother leaves the chain without position k |
| Tree.RemoveAtOtherChains | fs/newfs/src/newfs_utils.c:121-146 | unlinking leaves every other chain linked as before |
| Tree.AddDentryOk | fs/newfs/include/types.h:142-152 | a fresh unlinked dentry keeps the tree well formed |
| Tree.AddInodeOk | fs/newfs/src/newfs_utils.c:180-191 | a fresh inode with an empty chain keeps the tree well formed |
| Tree.LinkInodeOk | fs/newfs/src/newfs_utils.c:184-187 | pointing a dentry at an inode whose back-link names it keeps the tree well formed |
| Tree.SetInoOk | fs/newfs/src/newfs_utils.c:185 | rewriting a dentry's ino keeps the tree well formed |
| Tree.AttachInodeOk | fs/newfs/src/newfs_utils.c:180-190 | newfs_alloc_inode's pointer updates keep the tree well formed, and the dentry's inode and ino are the new inode and its number |
| Tree.DescRank | fs/newfs/src/newfs_utils.c:278-309 | the subtree newfs_sync_inode visits ranks below its root, so the recursion ends |
| Tree.ChildDescSub | fs/newfs/src/newfs_utils.c:297-299 | the subtree below a chained dentry lies within the directory's subtree |
| Tree.DescParent | fs/newfs/src/newfs_utils.c:397-408 | a proper descendant's parent directory is a descendant, and the descendant hangs below a dentry of its chain |
| Tree.DescNested | fs/newfs/src/newfs_utils.c:397-408 | two subtrees that share an inode are nested |
| Tree.SiblingsDisjoint | fs/newfs/src/newfs_utils.c:400-408 | the subtrees below two dentries of one chain are disjoint |
| Tree.DescUpToDisjoint | fs/newfs/src/newfs_utils.c:400-408 | the subtree below a later dentry is disjoint from those below the earlier ones |
| Tree.ChildDescExcludes | fs/newfs/src/newfs_utils.c:400-408 | a directory is not below its own dentries |
| Tree.DescFrame | fs/newfs/src/newfs_utils.c:397-408 | a subtree depends only on its own inodes, chains and the dentries |
| Tree.DescUpToFrame | fs/newfs/src/newfs_utils.c:400-408 | the same, for the subtrees below the first m dentries of a chain |
| Tree.ReadStep | fs/newfs/src/newfs_utils.c:460-463 | one child of read_inode: `kid` added as dentry d, brother set to the old head, at the head of the chain with dir_cnt + 1 |
| Tree.ReadStart | fs/newfs/src/newfs_utils.c:426-442 | the new inode with an empty chain is the loop's start |
| Tree.ReadNext | fs/newfs/src/newfs_utils.c:447-464 | reading child k extends the built arena by it, at a free id on no chain |
| Tree.ShapeOk | fs/newfs/src/newfs_utils.c:425-482 | the arena read_inode builds is well formed |
| Tree.ShapeKid | fs/newfs/src/newfs_utils.c:447-463 | after m children are read, position k of the new chain holds child m−1−k, since each is inserted at the head |
| Tree.ShapeOwnChain | fs/newfs/src/newfs_utils.c:447-464 | the new inode's chain runs from the last child read to the first |
| Tree.ReadLeavesDentryUnlinked | fs/newfs/src/newfs_utils.c:550 | as written, read_inode leaves the dentry's inode pointer NULL, since the caller drops its result |
| Tree.ExtendsTrans | fs/newfs/src/newfs_utils.c:549-551 | growth of the arena composes |
| Tree.ReadExtends | fs/newfs/src/newfs_utils.c:425-482 | read_inode only adds to the arena |
| Tree.LinkExtends | fs/newfs/src/newfs_utils.c:590 | storing the inode of a dentry that had none only adds to the arena |
| Drop.EmptiedOk | fs/newfs/src/newfs_utils.c:397-409 | emptying the chains of any inodes keeps the tree well formed |
| Drop.EmptiedTwice | fs/newfs/src/newfs_utils.c:397-409 | emptying A then B is emptying A ∪ B |
| Drop.CutNext | fs/newfs/src/newfs_utils.c:404 | drop_dentry of the head of what is left cuts one more dentry |
| Drop.CutEverything | fs/newfs/src/newfs_utils.c:400-408 | cutting every dentry of a chain empties it |
| Drop.CutEmptied | fs/newfs/src/newfs_utils.c:400-408 | emptying other chains commutes with cutting this one |
| Drop.ClearAtCleared | fs/newfs/src/newfs_utils.c:382-395 | the bit-clear scan clears exactly the bit of the index |
| Drop.ClearedTrans | fs/newfs/src/newfs_utils.c:382-408 | clearing A then B clears A ∪ B |
| Drop.DescSplit | fs/newfs/src/newfs_utils.c:397-415 | a directory's subtree is itself plus what is below its chain; a file's is itself |
| Drop.ChildReady | fs/newfs/src/newfs_utils.c:400-403 | at turn k, the chain left starts at the k-th dentry, whose subtree is as before the loop |
| Drop.ChildDropped | fs/newfs/src/newfs_utils.c:402-404 | drop_inode of the k-th dentry's inode, then drop_dentry, reach the state after k + 1 turns |
| Drop.DroppingStep | fs/newfs/src/newfs_utils.c:400-408 | one turn of the loop extends the drop invariant from k to k + 1 |
| Drop.DroppingEnd | fs/newfs/src/newfs_utils.c:397-416 | after the loop every directory chain of the subtree is empty and the subtree's bits are cleared |
| Drop.DroppedFile | fs/newfs/src/newfs_utils.c:410-416 | for a regular file only its own bit is cleared |
| Fs.ChainRecords | fs/newfs/src/newfs_utils.c:288-290 | the records sync writes for a chain: one per dentry, each well formed |
| Fs.ChainChild | fs/newfs/src/newfs_utils.c:279-301 | the k-th dentry of a chain: its brother is the next one, its record is the k-th, and its inode ranks below the directory |
| Fs.Children | fs/newfs/src/newfs_utils.c:460-462 | the dentries read_inode makes, one per record, in reading order |
| Fs.ReadArenaOk | fs/newfs/src/newfs_utils.c:425-464 | the arena read keeps ids below the next one, names padded and inode numbers in the table |
| Fs.ReadLinkOk | fs/newfs/src/newfs_utils.c:590 | the inode read may hang below its dentry |
| Fs.ReadReversesChain | fs/newfs/src/newfs_utils.c:447-463 | after reading what a sync stored, child k of the new chain has the name, type and ino of dentry n−1−k of the synced chain, the directory's dentry as parent, and no inode |
| Fs.LinkStepOk | fs/newfs/src/newfs_utils.c:590 | storing the read inode in its dentry keeps the state valid and only adds to it |
| Fs.ReadLinkable | fs/newfs/src/newfs_utils.c:589-590 | the inode read for a dentry without one may be stored in it, and the arena only grew |
| Fs.ReachesExtends | fs/newfs/src/newfs_utils.c:546-586 | where a path leads stays where it leads as the arena grows |
| Fs.ReachesChild | fs/newfs/src/newfs_utils.c:561-571 | one more component leads to the first match below the dentry reached |
| Fs.TurnOutcome | fs/newfs/src/newfs_utils.c:546-586 | a turn that goes on reaches its next dentry by one more component; a turn that stops ends the walk with lookup's outcome |
| Fs.TurnChild | fs/newfs/src/newfs_utils.c:561-571 | the dentry a turn moves to is reached by one more component |
| Fs.TurnStop | fs/newfs/src/newfs_utils.c:555-584 | a turn that stops at its cursor ends the walk with lookup's outcome there |
| Fs.OutcomeExtends | fs/newfs/src/newfs_utils.c:589-591 | the walk's outcome survives the final hydration |
| Fs.Newfs.constructor | fs/newfs/src/newfs_utils.c:635-680 | the mounted state before the root is read: the layout, the bitmaps and a root dentry alone |
| Fs.Newfs.AllocDentry | fs/newfs/src/newfs_utils.c:103-113 | newfs_alloc_dentry: d heads the chain with the old chain behind it, dir_cnt + 1 is returned, the state stays valid |
| Fs.Newfs.LinkHead | fs/newfs/src/newfs_utils.c:104-110 | the two pointer cases of head insertion give `InsertHead` |
| Fs.Newfs.DropDentry | fs/newfs/src/newfs_utils.c:121-146 | newfs_drop_dentry: an absent dentry gives −ENOENT and no change. A present one is unlinked alone, the order of the rest kept, and dir_cnt − 1 returned |
| Fs.Newfs.FindBefore | fs/newfs/src/newfs_utils.c:124-140 | the scan finds d iff it is on the chain, with the dentry before it |
| Fs.Newfs.Unlink | fs/newfs/src/newfs_utils.c:126-135 | the pointer update through the head or the predecessor gives `RemoveAt` |
| Fs.Newfs.GetDentry | fs/newfs/src/newfs_utils.c:490-502 | newfs_get_dentry: the dir-th dentry from the head, or NULL past the end |
| Fs.Newfs.AllocInode | fs/newfs/src/newfs_utils.c:153-191 | newfs_alloc_inode: the bitmap is `Alloc`'s; on success a fresh inode with that number hangs below d, with dentry/inode back-links and dentry->ino set; on −ENOSPC nothing else changes |
| Fs.Newfs.Attach | fs/newfs/src/newfs_utils.c:180-190 | the pointer updates give `AttachInode` at the next id |
| Fs.Newfs.SyncedLoads | fs/newfs/src/newfs_utils.c:264-338 | sync/read round trip: after a successful sync the loader reads the inode's number and size and, for a directory, one record per chained dentry in chain order |
| Fs.Newfs.SyncInode | fs/newfs/src/newfs_utils.c:264-338 | newfs_sync_inode returns NONE or −ENOSPC, changes only the inode table and blocks free before, only sets data bits, and on NONE leaves the inode `Synced`; −ENOSPC comes back only with the data bitmap full below max_dno, or for a directory whose entries need more than six blocks |
| Fs.Newfs.SyncDir | fs/newfs/src/newfs_utils.c:278-310 | the directory part stores one record per dentry in chain order, in BlocksFor(n) newly claimed blocks; it fails only with the data bitmap full or when BlocksFor(n) exceeds six |
| Fs.Newfs.SyncEntries | fs/newfs/src/newfs_utils.c:285-309 | the chain loop, with nested syncs, ends with every record stored, or fails only with the data bitmap full or more entries than six blocks hold |
| Fs.Newfs.SyncChild | fs/newfs/src/newfs_utils.c:297-299 | the nested sync keeps the records stored so far, whatever it returns |
| Fs.Newfs.SyncReg | fs/newfs/src/newfs_utils.c:311-327 | the regular-file part claims FileBlocks(size) free blocks or fails with −ENOSPC, and then only with the data bitmap full below max_dno |
| Fs.Newfs.AllocDataBlk | fs/newfs/src/newfs_utils.c:214-238 | newfs_alloc_data_blk's bitmap and result are `Alloc`'s against max_dno |
| Fs.Newfs.FreeDataBlk | fs/newfs/src/newfs_utils.c:240-262 | newfs_free_data_blk's bitmap and result are `Free`'s against max_dno |
| Fs.Newfs.ReadInode | fs/newfs/src/newfs_utils.c:425-482 | newfs_read_inode: none and no change when a read fails; otherwise a new inode with the stored ino and size below d, and one child per stored record at the head of its chain |
| Fs.Newfs.PutInode | fs/newfs/src/newfs_utils.c:426-442 | the new inode enters the arena with an empty chain |
| Fs.Newfs.ReadChildren | fs/newfs/src/newfs_utils.c:447-464 | the loop adds every child, each at the head |
| Fs.Newfs.ReadChild | fs/newfs/src/newfs_utils.c:460-463 | one child enters the arena at the head of the chain |
| Fs.Newfs.AddChild | fs/newfs/src/newfs_utils.c:460-463 | new_dentry's result and newfs_alloc_dentry give `ReadStep` |
| Fs.Newfs.Hydrate | fs/newfs/src/newfs_utils.c:589-591 | `dentry->inode = newfs_read_inode(...)` when NULL: the state grows only, and d has an inode afterwards iff it had one or its record could be read |
| Fs.Newfs.SetInode | fs/newfs/src/newfs_utils.c:590 | only d's inode pointer changes |
| Fs.Newfs.FindChild | fs/newfs/src/newfs_utils.c:560-571 | the child scan stops at the first dentry named by the component, or finds none when no dentry is |
| Fs.Newfs.Descend | fs/newfs/src/newfs_utils.c:546-586 | one turn of the lookup loop, characterised by `Turned` |
| Fs.Newfs.Walk | fs/newfs/src/newfs_utils.c:528-587 | the lookup loop ends with `Outcome`: the root for "/", the named dentry when every component is found, the directory missing the next one, a file met early, or no result where the source dereferences NULL |
| Fs.Newfs.Lookup | fs/newfs/src/newfs_utils.c:528-594 | newfs_lookup's result is the walk's `Outcome`, and the dentry returned lacks an inode only when its record cannot be read |
| Fs.Newfs.DropInode | fs/newfs/src/newfs_utils.c:367-417 | newfs_drop_inode: the root's inode gives NEWFS_ERROR_INVAL with no change; any other clears exactly the inode bits of its subtree, empties every directory chain in it and returns NONE |
| Fs.Newfs.DropChildren | fs/newfs/src/newfs_utils.c:397-409 | after the loop every dentry of the chain is unlinked and everything below dropped |
| Fs.Newfs.DropChild | fs/newfs/src/newfs_utils.c:400-407 | one turn extends the drop invariant to k + 1 |
| Fs.Newfs.UnlinkHead | fs/newfs/src/newfs_utils.c:404 | drop_dentry of the head: `RemoveAt(_, i, 0)`, the inode bitmap unchanged |
| Fs.Newfs.DropBelow | fs/newfs/src/newfs_utils.c:402-403 | drop_inode of the k-th dentry's inode: its subtree emptied and its bits cleared |
| Fs.Newfs.SyncedUnmounted | fs/newfs/src/newfs_utils.c:745-758 | umount's metadata writes keep what a sync stored, so the root and its entries are still read back |
| Fs.Newfs.Umount | fs/newfs/src/newfs_utils.c:726-763 | newfs_umount syncs the root (result not looked at) and returns NONE. The next mount adopts the layout with the magic number and finds both bitmaps; when the sync succeeded it reads the root and its entries back, and the sync fails only with the data bitmap full or a root directory needing more than six blocks |
| Umount.GeometryMetaFits | fs/newfs/src/newfs_utils.c:750-757 | bitmaps of the layout's sizes fit where umount writes them |
| Umount.Unmounted | fs/newfs/src/newfs_utils.c:745-758 | the device after umount's three writes keeps its length (what the next mount finds there is `Umount.UnmountedReadsBack`) |
| Umount.UnmountedReadsBack | fs/newfs/src/newfs_utils.c:732-758 | after the three writes the next mount adopts the layout and finds both bitmaps, and the inode table and data blocks are untouched |
| Umount.SyncedAsAfterLowWrite | fs/newfs/src/newfs_utils.c:745-758 | a write ending before the inode table keeps what a sync stored |
| Umount.SyncedAsUnmounted | fs/newfs/src/newfs_utils.c:745-758 | the three metadata writes keep what a sync stored |
| Umount.WriteBack | fs/newfs/src/newfs_utils.c:745-758 | the three newfs_driver_write calls, in order, give `Unmounted` |

## Left out

- Copying file content in `newfs_sync_inode` and `newfs_read_inode` (lines 311-327, 466-479): only the block count and the pointer bookkeeping are modelled. Line 318 writes `inode->data` instead of `data_ptr` on every block. Line 471 reads from `NEWFS_DATA_OFS(ino)` instead of `blk_pointer[i]`.
- Driver failures: `newfs_driver_read`/`write` always return NEWFS_ERROR_NONE, so the −EIO branches never run and are not modelled.
- `ddriver_open/seek/ioctl/close`: the device is the `Disk` object, given its bytes and I/O unit.
- `newfs_mount` as a whole is not modelled. Not modelled: the bitmap reads, the root allocation and sync on a fresh volume, the read of the root inode, and the printf dump. Modelled: the layout it computes or adopts (`Layout.MountLayout`) and the state it builds before the root is read (`Fs.Newfs.constructor`).
- Fs.Newfs.Umount: requires a mounted volume whose root dentry has an inode, as the source dereferences it. The `is_mounted == FALSE` branch (return NONE) is not modelled, nor is freeing the bitmaps and `ddriver_close`.
- Fs.Newfs.DropInode: returns NEWFS_ERROR_INVAL un-negated for the root, as line 378 does; the other error returns are negated.
- Fs.Newfs.DropInode: requires every directory of the subtree to have its children's inodes in memory (`Tree.Hydrated`). The source calls `newfs_drop_inode` on a NULL child inode otherwise.
- Fs.Newfs.DropInode: the dropped dentries and inodes stay in the arena; `free` is not modelled.
- Memory management in general: `malloc`/`free` lifetimes. Also left out is the undersized scratch copy `malloc(sizeof(path))` in `newfs_lookup` (line 536), which holds only 8 bytes.
- Fs.Newfs.Walk: requires a path of the form FUSE passes ("/" or "/a/b" with non-empty components). The tokens are computed up front with `Path.Tokens` rather than by stepping `strtok`.
- Fs.Newfs.Walk: for a path whose last component sits under a regular file, such as "/f/x" where "f" is a regular file whose inode is in memory, the source leaves `dentry_ret` NULL. At the second level the parent is regular but `lvl == total_lvl`, so the branch at line 555 is not taken; the directory branch at line 560 is not taken either, and `strtok` ends the loop. Line 589 then dereferences NULL. This is modelled as no result.
- Fs.Newfs.Walk: `*is_find` is left as the caller set it in the branches where the source does not assign it. The model takes it as the input `isFind`.
- Fs.Newfs.FindChild: compares names exactly, as evidently intended; the prefix match as written is in `Path.MatchAsWritten`.
- Fs.Newfs.FindChild: does not model `memcmp` reading past a stored name.
- Fs.Newfs.Descend: stores the inode it reads in the cursor, as evidently intended at line 550, instead of discarding it.
- Fs.Newfs.SyncInode: uses the corrected packing, which resets the count per block, and stops at six pointers; see "## Findings".
- Fs.Newfs.SyncInode: the nested syncs of a directory's children are given the same `leftover` contents for their unused pointer slots as the parent. Nothing reads those slots back.
- Fs.Newfs.SyncDir: claims a block lazily, when a record is about to go into a full block. The source claims the next block at line 306 as soon as the turn that fills a block ends, even after the last record. So a directory that fills its last block exactly gets one more, empty block (eight entries with 1024-byte blocks as written; seven with the corrected test). With the corrected test, a sixth full block also makes it store a seventh pointer. The model stores exactly BlocksFor(n) pointers.
- Fs.Newfs.SyncDir: returns −ENOSPC when the data bitmap runs out during a claim. Line 306 stores the allocator's result unchecked, and the next record is written below the data region; see "## Findings".
- Sync.StoreEntry: the lazy claim and the −ENOSPC check of Fs.Newfs.SyncDir.
- Fs.Newfs.SyncEntries: the lazy claim and the −ENOSPC check of Fs.Newfs.SyncDir.
- Sync.DirProgressDone: states BlocksFor(n) blocks at the end of the chain, following the lazy claim. The trailing empty block the source claims is not modelled.
- Fs.Newfs.ReadInode: returns none, changing nothing, for a stored ino outside [0, max_ino), which line 438 copies unchecked. The model keeps every in-memory ino inside the inode table, so that a later sync writes inside it.
- Fs.Newfs.ReadInode: returns none for a record whose type tag is neither 0 nor 1, which line 461 passes to `new_dentry` unchecked. The model's file type has only the two values.
- Fs.Newfs.ReadInode: reads with the corrected packing, seven records per 1024-byte block. The test at line 449 as written puts eight in a block, the eighth at pointer 0, offset 952, past the end of the block; see "## Findings" (lines 305 and 449).
- Store.LoadInode: refuses a stored ino outside the inode table, for the reason given under Fs.Newfs.ReadInode.
- Store.EntryAt: refuses a type tag other than 0 or 1, a record past the stored pointers, and a record off the device, all of which the source reads unchecked.
- Store.LoadEntries: reads with the corrected packing and inherits the refusals of Store.EntryAt.
- Load.ReadEntries: reads with the corrected packing and inherits the refusals of Store.EntryAt.
- Load.ReadRecords: inherits the refusals of Store.LoadInode and the corrected packing.
- Fs.Newfs.AllocInode and Fs.Newfs.AllocDataBlk: use the corrected allocator, which tests before claiming a bit; see "## Findings".
- Debug output (`printf`, `NEWFS_DBG`), `custom_options` and device naming are not modelled.
- Concurrency: the source has none.

## Findings

| source | as written | input that shows it | evidently intended | confidence | as-written member | corrected member |
|---|---|---|---|---|---|---|
| fs/newfs/src/newfs_utils.c:566 | `memcmp(dentry->fname, fname, strlen(fname))` matches the component against a prefix of the stored name | looking up "/ab" in a directory holding "abc" finds "abc" | the stored name equals the component | high, not executed | Path.PrefixMatchAsWritten | Path.MatchesIsTerminatedPrefix |
| fs/newfs/src/newfs_utils.c:550 | the inode read for a dentry without one is discarded, so line 553 reads NULL | a lookup of "/a/b" after mount, where "a" is a directory not yet read | `dentry_cursor->inode = newfs_read_inode(...)`, as at line 590 | high, not executed | Tree.ReadLeavesDentryUnlinked | Fs.Newfs.Hydrate |
| fs/newfs/src/newfs_utils.c:303-307 | `cnt` is never reset, so after the first block fills every later record claims a block of its own, while the reader resets its count | 1024-byte blocks and 10 entries: record 9 is written at pointer 2, offset 0, and read at pointer 1, offset 136 | reset `cnt` with each new block | high, not executed | Entries.PackingAsWrittenDisagrees | Entries.PackingCorrected |
| fs/newfs/src/newfs_utils.c:305 | the block is taken as full when `cnt * 136 >= sz_blk`, so the last record of a block runs past it | 1024-byte blocks: record 7 occupies bytes 952-1087 of the block, and the reader (line 449) looks for it there | full when the next record would not fit (`(cnt + 1) * 136 > sz_blk`) | high, not executed | Entries.PackingAsWrittenDisagrees | Entries.PackingCorrected |
| fs/newfs/src/newfs_utils.c:315-327 | the pointer is stored before the `data_blk_num > 6` test, so a seventh pointer is written | a regular file of 7 × 1024 bytes writes `blk_pointer[6]` | stop at NEWFS_DATA_PER_FILE pointers | high, not executed | Store.FileLoopAsWrittenOverflows | Store.FileBlocks |
| fs/newfs/src/newfs_utils.c:449 | the reader also takes a block as full when `cnt * 136 >= sz_blk`, so it reads the last record of a block from past the block's end | 1024-byte blocks and 8 entries: record 7 is read from pointer 0, offset 952, bytes 952-1087 | read seven records per block, as the writer's corrected test stores them | high, not executed | Entries.ReadSlotAsWrittenOverrunsBlock | Entries.PackingCorrected |
| fs/newfs/src/newfs_utils.c:306 | the result of `newfs_alloc_data_blk` is stored as a block pointer without a check | a directory whose next block is claimed when the data bitmap is full: the pointer is −28 and the next record goes to `NEWFS_DATA_OFS(-28)`, below the data region | return −ENOSPC | high, not executed | Sync.UncheckedClaimAsWritten | Sync.StoreEntry |
| fs/newfs/src/newfs_utils.c:449-454 | the guard `data_blk_num > 6` is tested before the increment, so pointers 6 and 7 are read | a directory with 48 or more entries and 1024-byte blocks | give up once all six pointers are used | high, not executed | Entries.ReadGuardAsWrittenOverruns | Entries.PackingCorrected |
| fs/newfs/src/newfs_utils.c:164-178 | the free bit is set before the exhaustion test, which compares with `==` only | every bit below max_ino set: the call returns −ENOSPC yet sets bit max_ino, and the next call returns max_ino + 1 | test for an index at or past the maximum before setting the bit | high, not executed | Bitmap.AllocAsWrittenEscapesMax | Bitmap.AllocStaysBelowMax |
