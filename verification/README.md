# GlideFS image compiler and circuit breaker in Dafny

This project models the parts of GlideFS that turn trees, tar layers and snapshots into
filesystem images, and the lock-free circuit breaker in front of object storage, and
proves what they promise.

* **ext4 writer and reader** (`SparseSuper`, `FreeBlocks`, `ExtentTree`, `Placement`,
  `Ledger`, `Ext4Writer`, `Groups`, `Bitmap`, `Ext4Close`). The writer is a class with the
  cursor, the sink, the free holes and a ledger of who owns which block. Whatever is
  written, every passed block is owned, reserved or a recorded hole, and every finished
  file reads back through its extent tree.
* **ext4 tree, directories and attributes** (`DirTree`, `DirBlock`, `Xattr`, `InodeRecord`,
  `Ext4Dirs`). The inode table as create, link and make_parents change it; linear directory
  blocks; extended attributes with the inline-data overflow; the 256-byte inode records.
  After close, following a path through inode table and directories on disk leads where it
  leads in the tree.
* **EROFS writer** (`ErofsBuilder`, `ErofsTree`, `ErofsDir`, `ErofsXattr`, `ErofsImage`,
  `ErofsSerialize`, `ErofsClose`). From create, link and write calls to an image that a
  reader walks by names to exactly the builder's tree, with its bytes and metadata.
* **Circuit breaker** (`Breaker`, `BreakerWindow`). Any number of threads interleaved at
  every atomic access, shown to refine a breaker without words, threads or bounded fields.
* **Layer merge** (`LayerMerge`, `LayerLinks`) against applying the layers one after
  another, and into the ext4 writer (`LayerSink`, `MergeImage`): exactly which stacks it
  takes, and the tree they leave.
* **Snapshot diff** (`SnapshotDiff`) from two filesystems through the tree walk that feeds it.

`Bytes` and `Arith` hold the byte sink, little-endian integers and division facts. The
output sink is a zero-filled byte sequence with total writes. The release profile checks
integer overflow (Cargo.toml:14-18), so where 32-bit arithmetic overflows the models stop
with a panic outcome. `dafny verify dfyconfig.toml` checks the whole project.

## What turned out to hold only sometimes

* An xattr block is put at the cursor without stepping around backup regions
  (ext4/src/writer.rs:763-767). `Ext4Writer.Writer.WriteXattrBlock` says exactly when it
  overwrites one; `Ext4Close.XattrOverBackup` is a run that does.
* `best_group_count` returns exactly up to 2,097,360 inodes and then chooses the best
  geometry; above, the product for 16 inodes per group panics. `Groups.OverflowExactly`,
  `Groups.BestGroupCount`.
* The bitmaps end past the last group exactly if one backup region pushes them there
  (`Ext4Close.BitmapsExactly`), which needs more than 15871 groups
  (`Ext4Close.BitmapsFit`) and does happen (`Ext4Close.BitmapsCanOverrun`). The free count
  of the last group then panics, unless the bitmaps end on a group boundary.
* With 131072 groups, which a 16 TiB disk has room for, the end of the last group is not a
  32-bit block number and close panics: `Ext4Close.LastGroupTooHigh`.
* At exactly 16 TiB the cursor's 32-bit block number is 0 (`Ext4Writer.CursorBlock`): a file
  whose data ends there, and no other, is closed without extents
  (`Ext4Writer.Writer.WriteExtents`), and more data panics.
* The journal's one extent covers it exactly below 65536 blocks: `Ext4Close.JournalInode`.
* The inode table may outgrow the run reserved for it, and still never meets a backup
  region: `Ext4Close.InodeTableClear`.
* A consecutive breaker opens exactly on the threshold-th failure if the threshold is at
  most 16384, and never opens beyond: `Breaker.TripsExactly`, `Breaker.NeverTrips`,
  `Breaker.CanTrip`. On a 32-bit clock the timeout passes early exactly when the clock
  wrapped: `Breaker.EarlyInRun`. A half-open circuit without permits admits nobody until
  an earlier call reports: `Breaker.Exhausted`.
* The layer merge differs from the overlay in two families of paths, stated exactly in
  `LayerMerge.MergeExact`, with one example each. Both sides take a path as the string in the
  tar. That is a path to the writers as long as the strings have no empty, "." or ".."
  component (`MergeImage.SamePath`); a whiteout `./.wh.a` misses `a`
  (`MergeImage.DottedWhiteoutMisses`). That a path survives its directory is said of the
  stream: where the directory became a file, the ext4 writer then refuses the stream and the
  EROFS writer keeps a node that no reader reaches.
* The ext4 writer takes a merged stream exactly if every kept entry is good after those before
  it (`MergeImage.MergeToExt4`, `LayerSink.ItemOk`): names up to 255 bytes, nothing above it a
  file, no directory meeting a file or the reverse, room for the directories it needs, a link's
  target an earlier file, and a replaced file with another name or, for a new file, without
  extents. So a file over a directory made on the way fails (`MergeImage.FileOverDirectory`),
  and a link over a file with one name (`MergeImage.LinkOverFile`). A link to a directory made
  on the way fails there (`MergeImage.LinkToParent`) and not in EROFS
  (`MergeImage.ErofsLinksToParent`).
* Whether each kept hard link's target is streamed before it follows from the layers
  (`LayerLinks.MergeLinks`, `LayerLinks.EarlierExactly`); a target that a higher layer replaces
  is not (`LayerLinks.ReplacedTarget`).
* A snapshot delta gives the target exactly if no changed entry is lost
  (`SnapshotDiff.GivesExactly`, `SnapshotDiff.DiffSnapshots`): a socket is never written
  (`SnapshotDiff.SocketLost`), and a time is cut to 32 bits (`SnapshotDiff.TimeCut`).
* The tree walk succeeds exactly if no path leads to an unreadable inode and no directory is
  on two paths: `SnapshotDiff.Walk`.
* EROFS attributes come back exactly if stored names have at most 255 bytes and values fewer
  than 65536: `ErofsXattr.AreaRoundTrip`. A path component ".." is a name to the builder and
  the parent to a reader (`ErofsClose.DotDotIsParent`); all other paths agree.
* A whiteout's name reads back as that whiteout unless the file is called `.wh..opq`:
  `SnapshotDiff.WhiteoutNameRead`. The comment on the diff says a whiteout removes the
  whole subtree; the layer merge of the same repository keeps the contents of a whited-out
  directory (`LayerMerge.DirectoryContentsKept`). The models follow the code.
* Attributes all find a place exactly if, taken in order, each fits what is left of the inode
  or of the block: `Xattr.FillState`.
* An attribute whose name is only a known prefix ends the reading of its area:
  `Xattr.EmptyNameStops`.
* EROFS data addresses are cut to 32 bits before the data is written, so what
  `ErofsSerialize` says of an image's bytes is said of images below 2^32 blocks.
* EROFS directories are sorted exactly when the first child's name comes after "..":
  `ErofsDir.DotsSorted`.

## Model

| member | source | states |
|---|---|---|
| `SparseSuper.HasSuperBackup` | ext4/src/writer.rs:1900-1917 | true exactly for 0, 1 and the powers of 3, 5 and 7 |
| `SparseSuper.IsPowerOf` | ext4/src/writer.rs:1903-1916 | the multiplication loop decides being a power of its base |
| `SparseSuper.BackupGroupsListed` | ext4/src/writer.rs:1900-1917 | on disks up to 16 TiB the interior backup groups are 24 listed numbers and no others |
| `SparseSuper.BackupsNotAdjacent` | ext4/src/writer.rs:1900-1917 | no two neighbouring interior groups both hold a backup, so one skip always lands on a free block |
| `SparseSuper.RegionFitsU32` | ext4/src/writer.rs:419-443 | region arithmetic of every backup group stays inside 32 bits |
| `SparseSuper.RegionEndIsFree` | ext4/src/writer.rs:446-453 | from any reserved block to the end of its region all blocks are reserved, and the end is free |
| `SparseSuper.IsReservedBlock` | ext4/src/writer.rs:419-425 | decides membership in the set of reserved blocks |
| `SparseSuper.NextReservedBlockGe` | ext4/src/writer.rs:428-443 | returns the least reserved block at or after a position, or shows there is none up to the disk's last group |
| `FreeBlocks.PhysicalRuns` | ext4/src/writer.rs:523-538 | the runs cover exactly the free blocks of a range, in order, are at most one more than the backup regions entered, and need exactly as many leaves as the range has |
| `FreeBlocks.EntriesAtMost24` | ext4/src/writer.rs:1900-1917 | any range of a 16 TiB disk enters at most 24 backup regions |
| `FreeBlocks.FlattenRun` | ext4/src/writer.rs:874-888 | one run becomes leaves of at most 32768 blocks with consecutive logical numbers, exactly one per 32768 blocks begun |
| `FreeBlocks.FlattenRuns` | ext4/src/writer.rs:874-888 | the leaves list the runs' blocks exactly, and their number is the sum over the runs |
| `ExtentTree.ResolveExtents` | ext4/src/reader.rs:110-192 | parsing an inode's block area gives the extents of an inline or one-level-indexed tree, or fails as the format says |
| `ExtentTree.ReadLeafBlock` | ext4/src/reader.rs:140-186 | a leaf block yields its extents, or an error when the header is wrong |
| `ExtentTree.LeafRoundTrip` | ext4/src/format.rs:651-662 | a written leaf entry decodes to the same extent |
| `ExtentTree.HeaderRoundTrip` | ext4/src/format.rs:637-649 | a written header decodes to the same counts and depth |
| `ExtentTree.IndexRoundTrip` | ext4/src/format.rs:664-672 | a written index entry decodes to the same target block |
| `ExtentTree.InlineRootResolves` | ext4/src/reader.rs:110-192 | an inline root with up to four leaves resolves to those leaves |
| `ExtentTree.LeafBlockResolves` | ext4/src/reader.rs:140-186 | an encoded leaf block resolves to the leaves put into it |
| `ExtentTree.ExtentReader.Read` | ext4/src/reader.rs:630-666 | each read returns the next bytes of the file, at least one while any remain, whatever the buffer size |
| `ExtentTree.ExtentReader.Drain` | ext4/src/reader.rs:601-666 | reading with any sequence of buffer sizes returns the whole file |
| `Ledger.PartitionExact` | ext4/src/writer.rs:446-520 | a passed block has exactly one of the three roles (claimed, reserved, hole) if and only if no xattr block was put on it while reserved |
| `Ext4Writer.DiskLimit` | ext4/src/writer.rs:316-326 | every size option gives a positive multiple of the block size up to 16 TiB, and the option itself rounded up where it is in range |
| `Ext4Writer.Writer.constructor` | ext4/src/writer.rs:971-1003 | for every size option the cursor starts after the descriptor table with an empty, valid ledger |
| `Ext4Writer.Writer.SkipReservedAtPos` | ext4/src/writer.rs:446-453 | the cursor moves over reserved blocks only, to a free block, and terminates |
| `Ext4Writer.Writer.WriteBytes` | ext4/src/writer.rs:348-361 | writes everything or nothing, failing exactly beyond the maximum size |
| `Ext4Writer.Writer.StartInode` | ext4/src/writer.rs:814-826 | starts a file where the cursor is, without padding, exactly if none is in progress |
| `Ext4Writer.Writer.StartFile` | ext4/src/writer.rs:1112-1131 | a large file starts on the alignment grid, the gap is recorded as free unless it ends at 16 TiB; it fails exactly if the padding from where the cursor stood passes the end of the disk |
| `Ext4Writer.Writer.RecordFreeHole` | ext4/src/writer.rs:483-496 | records exactly the free blocks of a gap, so a gap leaks nothing |
| `Ext4Writer.Writer.WriteFileData` | ext4/src/writer.rs:457-479 | any chunk lands in the next free blocks after the bytes before it; no reserved byte and no earlier byte changes; it succeeds exactly if the free blocks from where the cursor stood hold it, and panics exactly at 16 TiB |
| `Ext4Writer.Writer.WriteExtents` | ext4/src/writer.rs:854-967 | the tree written for a file reads back as its content, is made of free blocks only, its block count is the number of blocks it owns, its data plus at most four; how it ends is decided by the number of leaves its blocks need and, above four, by the free blocks behind the data; too large only above 128 GiB, and without extents exactly if the data ends at 16 TiB |
| `Ext4Writer.Writer.WriteLeafBlock` | ext4/src/writer.rs:905-957 | each leaf block goes to a free block and extends the tree by exactly its leaves |
| `Ext4Writer.Writer.FinishFile` | ext4/src/writer.rs:828-852 | a file closes only with the promised number of bytes, and then as its leaves and the room behind it decide; its record owns all its blocks, unless its data ends at 16 TiB |
| `Ext4Writer.Writer.ReadBackFile` | ext4/src/reader.rs:195-235 | every finished file of every run, read with any buffer sizes, gives the bytes written |
| `Ext4Writer.Writer.ReserveContiguous` | ext4/src/writer.rs:506-520 | terminates at the first start with no reserved block in the run; every skipped block is reserved or recorded as a hole; the 32-bit sum overflows only while a reserved block lies ahead; what happens at 16 TiB is stated for every length |
| `Ext4Writer.Writer.WriteXattrBlock` | ext4/src/writer.rs:749-774 | the block is claimed at the cursor, and overwrites a backup block exactly when the cursor stands on one |
| `Ext4Writer.Writer.RewriteXattrBlock` | ext4/src/writer.rs:768-774 | rewriting an xattr block changes no file |
| `Ext4Writer.Writer.WriteRun` | ext4/src/writer.rs:1384-1411 | a run on clear blocks is claimed by one owner and disturbs nothing before it |
| `Ext4Writer.CursorBlock` | ext4/src/writer.rs:385-387 | the 32-bit block number of the cursor is right exactly below 16 TiB |
| `Groups.GroupCountLeast` | ext4/src/writer.rs:1865-1879 | wherever group_count returns, it is the least number of groups that holds the data, the inode table and the bitmaps |
| `Groups.NoOverflow` | ext4/src/writer.rs:1865-1879 | up to 2,097,360 inodes no product of group_count overflows, for any permitted group size |
| `Groups.OverflowExactly` | ext4/src/writer.rs:1865-1894 | group_count returns for every permitted group size exactly up to 2,097,360 inodes, and 16 inodes per group decides it |
| `Groups.BestGroupCount` | ext4/src/writer.rs:1881-1894 | returns exactly up to 2,097,360 inodes, with the least count over all permitted inodes per group and the smallest size attaining it |
| `Groups.BestFromCounts` | ext4/src/writer.rs:1881-1894 | the first least of the computed counts is the best feasible geometry |
| `Groups.GeometryFits` | ext4/src/writer.rs:1596-1611 | a best geometry has room for data, table and bitmaps, so the table padding does not underflow |
| `Bitmap.BlockBitmap` | ext4/src/writer.rs:1628-1675 | fails exactly where the end of the group is no 32-bit number; bit j is set exactly if its block is below the end of data and neither an unused descriptor block nor in a hole, or is beyond the disk; the count is the number of set bits, plus what the last group counts twice when the disk ends past it |
| `Bitmap.InodeBitmap` | ext4/src/writer.rs:1677-1693 | bit j is set exactly for reserved, used or padding inodes; the inodes not counted as used are the clear bits of the whole bitmap |
| `Bitmap.OnesAfter` | ext4/src/writer.rs:1628-1675 | setting or clearing one bit changes the number of set bits by exactly its old value |
| `Ext4Close.InodeTableClear` | ext4/src/writer.rs:1596-1606 | for every inode count the code handles, the table laid down after recomputing the geometry meets no backup region |
| `Ext4Close.BitmapsMoved` | ext4/src/writer.rs:1604-1611 | bitmaps that do not go right behind the inode table go right behind the one backup region in the way |
| `Ext4Close.BitmapsExactly` | ext4/src/writer.rs:1604-1611 | in a best geometry the bitmaps end past the last group if and only if a backup region that they would meet pushes them there |
| `Ext4Close.BitmapsFit` | ext4/src/writer.rs:1604-1611 | with at most 15871 groups no backup region can |
| `Ext4Close.BitmapsCanOverrun` | ext4/src/writer.rs:1604-1611 | a best geometry with 19684 groups on a 16 TiB disk where one does |
| `Ext4Close.LastGroupTooHigh` | ext4/src/writer.rs:1632-1636 | a best geometry with 131072 groups that fits a 16 TiB disk, where the end of the last group overflows |
| `Ext4Close.CountOk` | ext4/src/writer.rs:1695-1704 | a group's free count is the number of its clear bits, or underflows in the last group because the disk ends past it |
| `Ext4Close.TableRunLength` | ext4/src/writer.rs:1592-1602 | the 32-bit products of the inode table never overflow |
| `Ext4Close.PlaceJournal` | ext4/src/writer.rs:1384-1411 | the journal goes to the first clear run from where the cursor stood and is claimed by the journal; each failure follows from that run |
| `Ext4Close.JournalInode` | ext4/src/writer.rs:1413-1427 | the extent data of the journal inode resolves to the run, cut to 16 bits of length, so to the whole journal exactly below 65536 blocks |
| `Ext4Close.PlaceInodeTable` | ext4/src/writer.rs:1592-1602 | the table goes to the first run for one group more than its cursor needs, with the best geometry for its own position, is claimed, and holds every inode's record in its slot; each failure follows from where the cursor stood |
| `Ext4Close.PlaceBitmaps` | ext4/src/writer.rs:1604-1728 | every group's block and inode bitmap is computed from the final sizes, claimed on the first clear run behind the table and on disk at its descriptor's block, with free counts that are its clear bits and totals that are their sums; nothing before it changes; the other outcomes follow from the table's place |
| `Ext4Close.Close` | ext4/src/writer.rs:1579-1728 | after any run of the writer: a data-area block's bit is set if and only if the block is claimed or reserved, inode bits are set exactly for used inodes, free counts and superblock totals are the clear bits, journal, table and bitmaps own their runs, every inode's record is in its slot, the journal's included, no earlier claim or file changes; every other outcome follows from where the cursor stood before the call |
| `Ext4Close.OnePlace` | ext4/src/writer.rs:1579-1602 | where journal and table go, and the geometry, are determined by where the cursor stands |
| `Ext4Close.JournalSlot` | ext4/src/writer.rs:1427-1448 | the journal's inode record reads back as a regular file of the journal's size whose extents resolve to its run |
| `Ext4Close.RecordsKept` | ext4/src/writer.rs:1482-1566 | the records stay in their slots while the bitmaps are written |
| `InodeRecord.RoundTrip` | ext4/src/format.rs:838-899 | every inode record read back from what write_inode wrote is the same in every field, with 16 bits of the link count |
| `InodeRecord.TableWritten` | ext4/src/writer.rs:1482-1566 | every slot of the written table holds its record, or zeros |
| `InodeRecord.OffsetIs` | ext4/src/reader.rs:86-101 | the group and index that inode_offset computes lead to the inode's slot of the one table |
| `Ext4Close.BitmapsAgree` | ext4/src/writer.rs:1628-1675 | bitmaps and ledger agree on every block |
| `Ext4Close.XattrOverBackup` | ext4/src/writer.rs:749-774 | a run of xattr blocks that overwrites the first backup superblock |
| `Ext4Dirs.WriteDirectory` | ext4/src/writer.rs:1272-1326 | the directory becomes a finished file whose records are itself, its parent and its children, each once and in order; it is written if the free blocks hold it and four more and it has at most 128 GiB, only if they hold it, and takes at most four more |
| `Ext4Dirs.WriteDirectories` | ext4/src/writer.rs:1353-1371 | every directory of the tree gets such a file, with the directory that holds it as parent; it succeeds if the free blocks hold all of them with four more each, and takes at least their blocks and at most that |
| `Ext4Dirs.CloseImage` | ext4/src/writer.rs:1579-1728 | on the finished disk every inode's record, read from the table, is what was set up for it with its links counted, and every directory, read through its record's extents, lists itself, its parent and exactly its children; earlier files are kept; with enough room for the directories only the causes of close remain, counted from where the directories end |
| `Ext4Dirs.DiskFindIs` | ext4/src/reader.rs:86-300 | for every path, going from inode record to directory to inode record on disk leads to the inode the tree says, or nowhere when it says so |
| `Ext4Dirs.PlaceData` | ext4/src/writer.rs:1272-1326 | a file of unknown size goes down if the free blocks hold it and four more, and only if they hold it; its block count is what it took |
| `Ext4Dirs.InodeSlots` | ext4/src/writer.rs:1482-1566 | each used inode's slot is the encoding of its final record, each free one is empty |
| `DirTree.CleanPath` | ext4/src/writer.rs:1845-1855 | cleaning leaves only plain components |
| `DirTree.FindPath` | ext4/src/writer.rs:587-597 | the loop finds what the path leads to, or nothing |
| `DirTree.Tree.constructor` | ext4/src/writer.rs:971-1006 | the initial table is a valid tree in which only the root and lost+found are found |
| `DirTree.Tree.Lookup` | ext4/src/writer.rs:599-621 | succeeds exactly if the name has at most 255 bytes and its place is a directory, and the name is there where that is asked; with the directory, target and name of the clean path |
| `DirTree.Tree.MakeInode` | ext4/src/writer.rs:627-805 | a fresh slot, or the same slot with children and links kept; it fails exactly for an invalid type, data that does not fit, or a reused inode that is missing or holds extents |
| `DirTree.Tree.Create` | ext4/src/writer.rs:1064-1110 | succeeds exactly if the name is reached and free in a directory with a link to spare, or leads to the same kind that need not or can be taken over; keeps the tree invariant: link counts are 2 plus subdirectories, or the number of names, in 1..65000; the path leads to the inode and no other name moves |
| `DirTree.Tree.Link` | ext4/src/writer.rs:1135-1170 | succeeds exactly if both names are reached, the new one is free or leads to a file with another name, and the old one leads to a file with a link to spare; keeps the invariant; both names lead to the same inode and no other name moves |
| `DirTree.Tree.MakeParents` | ext4/src/writer.rs:1011-1061 | always keeps the invariant; on success exactly the leading directories of the path are new, otherwise those before a component that has too long a name or no place that can take a directory |
| `DirTree.DirPathUnique` | ext4/src/writer.rs:971-1170 | one path leads to a directory |
| `DirTree.FoundAfter` | ext4/src/writer.rs:1102-1170 | after a name is bound, every other path leads where it did |
| `DirTree.NewEntryValid` | ext4/src/writer.rs:1102-1110 | a fresh inode under a free name keeps all link counts right |
| `DirTree.ReplacedValid` | ext4/src/writer.rs:1102-1110 | moving one of several names of a file keeps all link counts right |
| `DirTree.LinkedValid` | ext4/src/writer.rs:1164-1170 | one more name for a file keeps all link counts right |
| `DirTree.Reachable` | ext4/src/writer.rs:971-1170 | in every valid table some path leads to every inode: nothing is orphaned |
| `DirTree.ParentIs` | ext4/src/writer.rs:1353-1371 | a directory is held by exactly one name |
| `DirTree.SubtreesApart` | ext4/src/writer.rs:1353-1371 | subtrees of different children share no directory |
| `DirTree.WriteDirectoryRecursive` | ext4/src/writer.rs:1353-1371 | terminates and visits exactly the directories below, each once and with the directory that holds it |
| `DirTree.WriteAllDirectories` | ext4/src/writer.rs:1579-1584 | from the root every directory is written exactly once, with its parent |
| `DirBlock.ReadDir` | ext4/src/reader.rs:270-300 | the loop lists the entries of the record stream without "." and "..", and fails exactly if one of their names is not UTF-8 |
| `DirBlock.RecordsRoundTrip` | ext4/src/format.rs:990-1027 | any sequence of records reads back as its entries, in order |
| `DirBlock.FinishDirBlock` | ext4/src/writer.rs:1328-1341 | there is always room for the trailing record, so its error cannot happen |
| `DirBlock.SortChildren` | ext4/src/writer.rs:1280-1287 | each child once, strictly sorted by inode number and name |
| `DirBlock.WriteDirectory` | ext4/src/writer.rs:1272-1326 | for any children, read_dir of the data gives exactly them in order, after "." and ".." with the right inodes; no record crosses a block; the data is whole blocks |
| `DirBlock.BlocksTiled` | ext4/src/writer.rs:1295-1316 | every block boundary is a record boundary, so each block's record lengths add up to 4096 |
| `DirBlock.ListedSize` | ext4/src/writer.rs:1280-1316 | the size of a directory is determined by its children |
| `Xattr.DecompressCompress` | ext4/src/format.rs:1067-1083 | every name comes back from its index and remainder |
| `Xattr.GetXattrs` | ext4/src/format.rs:1088-1123 | the loop reads entries until an empty name, a bad bound or the end, and skips names that are not UTF-8 |
| `Xattr.StoredReads` | ext4/src/format.rs:1088-1123 | a stored list with its terminator reads back as itself |
| `Xattr.EmptyNameStops` | ext4/src/format.rs:1096-1098 | an empty name loses itself and everything after it |
| `Xattr.PutXattrs` | ext4/src/writer.rs:215-243 | entries from the front and values from the back never meet, and what lies between is unchanged |
| `Xattr.XattrState.constructor` | ext4/src/writer.rs:182-191 | both areas start empty with their whole room left |
| `Xattr.XattrState.AddXattr` | ext4/src/writer.rs:193-212 | used plus left is always the whole room; an attribute goes to the inode if it fits, else to the block, else is refused |
| `Xattr.EncodeArea` | ext4/src/writer.rs:720-762 | an area holds its magic, its list and a terminator |
| `Xattr.FillState` | ext4/src/writer.rs:675-718 | after adding all, the two lists hold exactly the map, after the reserved file data; it fails exactly if one attribute, in the order given, fits neither what is left of the inode nor of the block; so it succeeds if all together fit the block, and only if they fit block and inode |
| `Xattr.DataFits` | ext4/src/writer.rs:675-690 | the place for inline file data always fits the inode, for every allowed size |
| `Xattr.SortAttrs` | ext4/src/writer.rs:751-755 | the same attributes, none before an earlier one in index, name length and name |
| `Xattr.MakeAreas` | ext4/src/writer.rs:720-762 | exactly if all find a place, inline and block areas encode the two lists, the block's sorted; a block the inode already has is written again |
| `Xattr.RewriteData` | ext4/src/writer.rs:1496-1524 | writing the real overflow over its place changes that value only |
| `Xattr.ReadXattrs` | ext4/src/reader.rs:303-328 | both areas are read and the internal name is removed |
| `Xattr.ReadInlineData` | ext4/src/reader.rs:239-267 | the data is the block area followed by the overflow attribute |
| `Xattr.StoreAndRead` | ext4/src/reader.rs:239-328 | every attribute map and every inline file come back exactly, if and only if all attributes find a place |
| `ErofsBuilder.Builder.constructor` | ext4/src/erofs.rs:204-236 | a tree with only the root directory |
| `ErofsBuilder.Builder.EnsureDir` | ext4/src/erofs.rs:240-262 | fails exactly if some component is there and not a directory, and then changes nothing; on success the path leads to the returned node, every earlier path still leads where it did, and only children are added |
| `ErofsBuilder.Builder.Create` | ext4/src/erofs.rs:275-339 | fails exactly if the parent path is obstructed, and then changes nothing; the path leads to a node with the given metadata and its link target or nothing written; every earlier path and all other nodes are kept |
| `ErofsBuilder.Builder.Link` | ext4/src/erofs.rs:342-353 | succeeds exactly if the old path leads somewhere, the new one has a component and its parent path is not obstructed; the new path then leads to the old node unless the way to it uses the entry that was bound; nodes keep everything but children |
| `ErofsBuilder.Builder.Write` | ext4/src/erofs.rs:384-416 | the chunk is appended to the current file, which stays one contiguous range of the spool; other nodes keep their bytes |
| `ErofsClose.FinishNode` | ext4/src/erofs.rs:106-127 | every child and every attribute of a node once, in name order, with its bytes and metadata |
| `ErofsClose.TreeFrom` | ext4/src/erofs.rs:240-416 | any run of the builder, with names and attribute areas the format can hold, leaves a tree that serialize accepts |
| `ErofsClose.FollowIsLead` | ext4/src/erofs.rs:355-364 | a path leads to the same node in the builder and in the finished tree |
| `ErofsClose.Close` | ext4/src/erofs.rs:376-381 | from the builder's nodes to the serialized image of their finished tree |
| `ErofsClose.ImageLeads` | ext4/src/erofs.rs:376-775 | for every path without "..", walking the image by names from the root's nid reaches exactly the nid of the builder's node, or nothing when the builder has nothing there |
| `ErofsClose.WalkedIsLead` | ext4/src/erofs.rs:355-364 | unless something on the way is not a directory, that is where the builder's own resolve leads |
| `ErofsClose.ImageHolds` | ext4/src/erofs.rs:695-838 | a file there decodes to the bytes written for it; mode, link count, owners and attributes are read back |
| `ErofsClose.DotDotIsParent` | ext4/src/erofs.rs:469-477 | the component ".." leads a reader to the parent |
| `ErofsTree.Visit` | ext4/src/erofs.rs:452-461 | terminates on any graph; adds only reachable nodes and all children of what it adds |
| `ErofsTree.Traversal` | ext4/src/erofs.rs:448-464 | every node reachable from the root exactly once, root first |
| `ErofsTree.Resolve` | ext4/src/erofs.rs:355-364 | the node that following the names from the root leads to, or nothing; it is always reachable |
| `ErofsTree.MentionedAre` | ext4/src/erofs.rs:557-583 | the nodes that priority paths lead to, the root left out, are each mentioned once |
| `ErofsTree.MentionOrder` | ext4/src/erofs.rs:557-583 | of two, the first has a path before every path that leads to the other |
| `ErofsTree.LayoutOrder` | ext4/src/erofs.rs:557-583 | every reachable node once: the root, then exactly what the priority paths lead to in order of first mention, then the rest; the priority set is those nodes |
| `ErofsDir.CountFitting` | ext4/src/erofs.rs:482-492 | the greedy count is the largest that fits a block, and positive for names up to 255 bytes |
| `ErofsDir.EncodeDir` | ext4/src/erofs.rs:469-515 | the loops emit the greedy blocks, all but the last padded |
| `ErofsDir.BlockDecodes` | ext4/src/erofs.rs:494-508 | a block, padded or not, decodes to its entries |
| `ErofsDir.DirRoundTrip` | ext4/src/erofs.rs:469-515 | block-by-block decoding recovers every entry with nid and type, in order |
| `ErofsDir.LengthFixed` | ext4/src/erofs.rs:519-549 | the encoded length does not depend on nids |
| `ErofsDir.DotsSorted` | ext4/src/erofs.rs:471-477 | the sequence is strictly sorted if and only if the first child comes after ".." |
| `ErofsXattr.EncodeXattrs` | ext4/src/erofs.rs:106-127 | nothing, or a header and four-byte-aligned entries with lengths cut to their fields |
| `ErofsXattr.AreaRoundTrip` | ext4/src/erofs.rs:88-127 | names and values come back from the area, in order, if and only if they fit the length fields |
| `ErofsImage.FactIsOk` | ext4/src/erofs.rs:532-541 | slot and tail always fit one block, and blocks plus tail hold the content |
| `ErofsImage.AssignSlots` | ext4/src/erofs.rs:627-642 | slots are 32-aligned, past the superblock, inside one block, and disjoint in order; the root's nid is 36 or 128 |
| `ErofsImage.AssignBlocks` | ext4/src/erofs.rs:644-688 | data ranges are disjoint in order, large files outside the priority set start on the grid, the priority data ends exactly at the returned block, and everything before it is data of the leading nodes |
| `ErofsImage.CopyBlocks` | ext4/src/erofs.rs:741-762 | the chunked copy is one write of all the bytes |
| `ErofsImage.PartDecodes` | ext4/src/erofs.rs:798-838 | a node whose inode, tail and blocks are in the image decodes by its data layout to its content |
| `ErofsImage.PartMeta` | ext4/src/erofs.rs:798-838 | its mode, link count and owners are read from the inode, cut to 16 bits |
| `ErofsImage.PartArea` | ext4/src/erofs.rs:702-710 | its attribute area is found behind the inode, with the size the inode gives |
| `ErofsSerialize.ParentMap` | ext4/src/erofs.rs:591-602 | a directory's parent entry is a node that holds it, or the root if none does |
| `ErofsSerialize.LinkCounts` | ext4/src/erofs.rs:604-623 | 2 plus the subdirectories, or the number of names, at least 1 |
| `ErofsSerialize.LayoutFacts` | ext4/src/erofs.rs:519-549 | facts computed with placeholder nids are right for all nids |
| `ErofsSerialize.AllApart` | ext4/src/erofs.rs:700-762 | below 2^32 blocks no write of the streaming pass overlaps another |
| `ErofsSerialize.Stream` | ext4/src/erofs.rs:695-773 | the image is exactly the total blocks and, where addresses are 32-bit, the superblock and every node's writes are in place |
| `ErofsSerialize.Serialize` | ext4/src/erofs.rs:588-775 | for every tree, alignment and priority list every reachable node is laid out once in priority order and, below 2^32 blocks, decodes at its nid to its content; files the priority paths do not name start on the grid, and the prefetch extent ends exactly with the metadata and the data the paths name |
| `ErofsSerialize.DirectoryListed` | ext4/src/erofs.rs:721-732 | a directory read from the image lists itself, a node that holds it as its parent, and its children with their nids and types; the root's parent is itself when nothing holds it |
| `ErofsSerialize.PriorityCovered` | ext4/src/erofs.rs:660-686 | every byte of a node that some priority path leads to lies inside the prefetch extent |
| `ErofsSerialize.GridBlock` | ext4/src/erofs.rs:648-680 | for a regular file of the minimum size that no priority path leads to, each grid block inside its blocks is a grid block of the image and holds the same content in every image |
| `ErofsSerialize.AttributesRead` | ext4/src/erofs.rs:702-710 | the attribute area behind a node's inode decodes to its attributes exactly if they fit the length fields |
| `ErofsSerialize.MetaRead` | ext4/src/erofs.rs:798-838 | a node's inode gives its mode, link count and owners |
| `ErofsSerialize.FileRead` | ext4/src/erofs.rs:735-762 | a file or link decodes to its bytes |
| `Breaker.UnpackPack` | glidefs/src/circuit_breaker.rs:246-261 | unpack after pack gives each field cut to its width |
| `Breaker.PackUnpack` | glidefs/src/circuit_breaker.rs:246-261 | pack after unpack is the identity on 64-bit words |
| `Breaker.StepKeeps` | glidefs/src/circuit_breaker.rs:269-493 | every atomic step of every thread keeps the invariant |
| `Breaker.Refines` | glidefs/src/circuit_breaker.rs:269-493 | in every interleaving what linearises is a legal history of the plain breaker, the word shows its state, and the invalid encoding is unreachable |
| `Breaker.PermitsConserved` | glidefs/src/circuit_breaker.rs:305-321 | in every half-open epoch requests admitted plus permits left is the configured number, cut to 16 bits |
| `Breaker.OpenHolds` | glidefs/src/circuit_breaker.rs:277-303 | on a steady clock nothing is admitted while open, and open ends only after the timeout |
| `Breaker.EarlyExactly` | glidefs/src/circuit_breaker.rs:229-237 | of two readings of a wrapping 32-bit clock closer than the timeout, the timeout test passes if and only if the clock wrapped in between |
| `Breaker.EarlyInRun` | glidefs/src/circuit_breaker.rs:269-303 | after any run that ends open on a wrapping 32-bit clock, a request before the timeout is up makes the circuit half-open if and only if the clock wrapped in between |
| `Breaker.ClosedCount` | glidefs/src/circuit_breaker.rs:400-430 | a closed word's count is the failures since the last reset, below the threshold if that fits 14 bits |
| `Breaker.TripsExactly` | glidefs/src/circuit_breaker.rs:400-430 | consecutive policy, threshold at most 16384: opens on exactly the threshold-th failure |
| `Breaker.NeverTrips` | glidefs/src/circuit_breaker.rs:400-430 | threshold above 16384: no run ever opens |
| `Breaker.CanTrip` | glidefs/src/circuit_breaker.rs:400-430 | threshold at most 16384: a run that opens |
| `Breaker.NeverEarly` | glidefs/src/circuit_breaker.rs:433-493 | windowed policy: never opens before the threshold-th failure since the last reset, whatever the races |
| `Breaker.Exhausted` | glidefs/src/circuit_breaker.rs:305-309 | without permits a half-open circuit rejects every request until a pending call reports |
| `BreakerWindow.CircuitBreaker.constructor` | glidefs/src/circuit_breaker.rs:219-227 | starts closed with nothing counted |
| `BreakerWindow.CircuitBreaker.Allow` | glidefs/src/circuit_breaker.rs:269-335 | one thread at a time: admitted exactly when closed, or half-open with a permit, or open past the timeout with permits configured |
| `BreakerWindow.CircuitBreaker.RecordSuccess` | glidefs/src/circuit_breaker.rs:341-381 | closes a half-open circuit and forgets counted failures; leaves an open one alone |
| `BreakerWindow.CircuitBreaker.RecordFailure` | glidefs/src/circuit_breaker.rs:433-493 | opens exactly when the failures of one window, this one included, reach the threshold; any two counted failures are less than a window apart |
| `LayerMerge.WhiteoutsAreMarkers` | ext4/src/tar_convert.rs:326-332 | an entry is skipped as a marker exactly when the scan took it for one |
| `LayerMerge.OverlayAt` | ext4/src/tar_convert.rs:133-152 | applying layers in order shows a path from its highest provider unless something above hides it |
| `LayerMerge.ScanLayers` | ext4/src/tar_convert.rs:455-486 | the top-down scan finds the highest provider of every path, all whited-out names, and the highest opaque marker of every directory |
| `LayerMerge.BuildOwnershipMap` | ext4/src/tar_convert.rs:445-503 | the map names every path's owner, and a path is deleted exactly if whited out anywhere or under an opaque directory above its owner |
| `LayerMerge.WriteLayerEntries` | ext4/src/tar_convert.rs:511-544 | a layer emits exactly its own contents that it owns and that are not deleted |
| `LayerMerge.MergeLayers` | ext4/src/tar_convert.rs:133-152 | the merge differs from the overlay exactly on the disagreeing paths, and equals it on clean stacks |
| `LayerMerge.MergeExact` | ext4/src/tar_convert.rs:445-544 | for every stack and path, merge and overlay agree if and only if the path is in neither family |
| `LayerMerge.MergeOfClean` | ext4/src/tar_convert.rs:445-544 | clean stacks merge to the overlay, contents included |
| `LayerMerge.ReaddedPathLost` | ext4/src/tar_convert.rs:470-478 | a path whited out below and added again above is lost |
| `LayerMerge.DirectoryContentsKept` | ext4/src/tar_convert.rs:526-532 | what was inside a whited-out directory is still streamed |
| `LayerLinks.MergeLinks` | ext4/src/tar_convert.rs:511-544 | decides whether every kept hard link names a path streamed before it |
| `LayerLinks.EarlierExactly` | ext4/src/tar_convert.rs:511-544 | a target is streamed before a link exactly if the merge shows it and its highest provider is a lower layer, or the same one with an earlier entry |
| `LayerLinks.ReplacedTarget` | ext4/src/tar_convert.rs:511-544 | a link whose target a higher layer replaces comes before it in the stream, though the layer alone is in order |
| `MergeImage.KeptEntries` | ext4/src/tar_convert.rs:133-152 | the entries that go into the sink are the kept ones, bottom layer first |
| `MergeImage.StreamHas` | ext4/src/tar_convert.rs:511-544 | every kept entry is in the stream, behind exactly those that precede it |
| `MergeImage.StreamOnly` | ext4/src/tar_convert.rs:511-544 | every entry of the stream is a kept one at its place |
| `LayerSink.PathsCounted` | ext4/src/writer.rs:1064-1170 | the link count of a file is the number of paths that lead to it |
| `LayerSink.ParentsFail` | ext4/src/writer.rs:1011-1061 | make_parents fails only on an entry that is not good after those before it |
| `LayerSink.CreateIff` | ext4/src/writer.rs:1064-1110 | with its parents made, create succeeds exactly on a good entry, as the entries before it say |
| `LayerSink.LinkIff` | ext4/src/writer.rs:1135-1170 | with its parents made, link succeeds exactly on a good entry, as the entries before it say |
| `LayerSink.Feed` | ext4/src/tar_convert.rs:348-361 | one entry goes into the tree exactly if it is good, and then the tree holds what the entries say |
| `LayerSink.FeedAll` | ext4/src/tar_convert.rs:511-544 | any stream goes through if and only if every entry is good after those before it; then the tree has exactly the entries' paths, their parents and lost+found, directories and files as they say, and two paths lead to one file exactly if the entries link them |
| `MergeImage.MergeToExt4` | ext4/src/tar_convert.rs:133-152 | for every stack, the merge into the ext4 writer succeeds if and only if every kept entry is good after those before it, and leaves the tree they say |
| `MergeImage.FileOverDirectory` | ext4/src/writer.rs:1071-1076 | a file where an earlier entry made a directory is refused |
| `MergeImage.LinkOverFile` | ext4/src/writer.rs:1138-1144 | a link over a file with one name is refused, with its target there |
| `MergeImage.LinkToParent` | ext4/src/writer.rs:1152-1157 | a link to a directory made on the way is refused |
| `MergeImage.ErofsLinksToParent` | ext4/src/erofs.rs:342-364 | the EROFS writer takes it |
| `MergeImage.SamePath` | ext4/src/writer.rs:1845-1855 | strings without empty, "." or ".." components clean to the same path if and only if they are equal |
| `MergeImage.DottedWhiteoutMisses` | ext4/src/tar_convert.rs:455-486 | a whiteout written with "./" leaves the path that both sinks take it for |
| `MergeImage.StringIsText` | ext4/src/format.rs:1009-1014 | the bytes of every string are UTF-8, so names from strings can be read back |
| `SnapshotDiff.WalkRecursive` | ext4/src/reader.rs:365-434 | terminates on any filesystem; a successful walk appends exactly what the paths inside the directory lead to, each path once and parents first; it fails only on a filesystem that is not walkable |
| `SnapshotDiff.FirstComponent` | ext4/src/reader.rs:365-434 | a path that leads somewhere inside a directory starts with one of its entries |
| `SnapshotDiff.Walk` | ext4/src/reader.rs:358-363 | succeeds exactly on walkable filesystems; a path is listed exactly if it leads from the root to an inode, and its entry is that inode |
| `SnapshotDiff.WriteEntryToTar` | ext4/src/reader.rs:453-553 | an entry is written in full, or as a link to an earlier full entry of the same inode, exactly if its type has an arm |
| `SnapshotDiff.UnpackIs` | ext4/src/reader.rs:461-553 | unpacking the entries puts at each path what a tar holds of the inode, and touches nothing else |
| `SnapshotDiff.WriteWhiteouts` | ext4/src/diff.rs:74-96 | every deleted path is covered, only deleted paths are named, and no whiteout lies under another |
| `SnapshotDiff.TargetNotCovered` | ext4/src/diff.rs:74-96 | no whiteout hides a path of the target |
| `SnapshotDiff.DiffToTar` | ext4/src/diff.rs:40-98 | for any two walks, exactly what the delta applied to the base gives; it is the target, as far as a tar can say it, if and only if no changed entry is lost |
| `SnapshotDiff.DiffSnapshots` | ext4/src/diff.rs:40-98 | succeeds exactly if both filesystems are walkable; the delta applied to the tree of the base gives the tree of the target if and only if no changed entry is lost |
| `SnapshotDiff.GivesExactly` | ext4/src/reader.rs:478-553 | the delta gives the target's paths and entries if and only if no changed entry has a time of 2^32 or more, or a type without an arm where the base does not already say it |
| `SnapshotDiff.MetadataExactly` | ext4/src/diff.rs:17-27 | all compared metadata then agrees if and only if, besides, changed entries that are no regular files have an arm and size 0 |
| `SnapshotDiff.SocketLost` | ext4/src/reader.rs:478-553 | an added socket is missing from the delta |
| `SnapshotDiff.TimeCut` | ext4/src/reader.rs:478-490 | an added file with time 2^32 gets time 0 |
| `SnapshotDiff.WhiteoutNameRead` | ext4/src/diff.rs:105-109 | a layer reader takes a whiteout's name for exactly that path if and only if the last name is not `.wh..opq` |

## Left out

- Ext4Writer.Writer.ReserveContiguous: with the cursor at exactly 16 TiB and a run longer than a group the cursor goes back to the front of the disk; the model stops there.
- Ext4Writer.Writer.StartFile: padding that ends at exactly 16 TiB is not in the source's free list, so the ledger is only claimed below.
- Ext4Close.PlaceJournal: the journal's own superblock bytes are not modelled.
- Ext4Dirs.WriteDirectory: the source's small writes are one chunk; the type of an inode is a parameter.
- Ext4Dirs.CloseImage: the records of inodes that are no directories are taken as make_inode and the file's end left them; that a directory's four possible extent blocks are needed is not decided, so between the two bounds success is open; the table's place is taken from close instead of the group descriptors' bytes.
- Ext4Dirs.DiskFindIs: directories with inline data, which the writer does not make, are not read.
- InodeRecord.RoundTrip: all 32 flag bits are kept, where the reader drops bits it does not know.
- DirTree.Tree.Create: the errors of size and attribute checks are one flag.
- DirTree.Tree.MakeInode: metadata other than kind, children, link count and the extents flag is not kept; a failure after the slot was pushed (writing a long symlink) is not modelled.
- Xattr.MakeAreas: names whose stored form is empty, longer than 255 bytes or not UTF-8 are excluded (what an empty one does to a reader is `Xattr.EmptyNameStops`); entry hashes are a parameter.
- ErofsSerialize.Serialize: names of 1 to 255 bytes without NUL, attribute areas of at most 4064 bytes and fewer than 2^32 nodes are required; the superblock's bytes are a parameter; block addresses and sizes of 2^32 and more are cut as in the source, and everything about the image's bytes is claimed below that.
- ErofsBuilder.Builder.Link: the panic for a new name without any component is a failure like the others.
- ErofsClose.ImageLeads: paths with a component ".." are excluded, see `ErofsClose.DotDotIsParent`.
- Breaker.EarlyExactly: timeouts above 2^64 - 2^32 seconds are excluded.
- Breaker.EarlyInRun: the request meets no other thread; the same timeouts are excluded.
- BreakerWindow.CircuitBreaker.RecordFailure: the clock must not go back between calls.
- SnapshotDiff.Walk: directory entries are taken to have distinct names without slashes.
- SnapshotDiff.DiffToTar: content is compared only through metadata, as in the source, so an unchanged entry keeps the base's bytes.
- LayerMerge.MergeLayers: paths are the strings the tar reader returns, and the result is the stream; what a sink makes of it is `MergeImage.MergeToExt4`.
- MergeImage.MergeToExt4: entry types the converter skips are left out; size and attribute checks and whether a file's data leaves the inode are given per entry.
- A closed condition on the layers for the EROFS sink: links to directories are taken there, so names can go in circles; each call's exact condition is `ErofsBuilder.Builder.Create` and `ErofsBuilder.Builder.Link`.
- SnapshotDiff.UnpackIs: the limits of tar header fields on names, link targets and ids are not modelled.
- The 1024-byte superblock, group descriptor and JBD2 superblock encodings: flat field lists.
- Boot ranges and the priority list of the ext4 writer: recording only.
- The overlay-preserving single-layer conversion (`write_single_layer`).
- `reset` and `force_state` of the breaker: blind stores outside the protocol.
- Precise windowed counting under concurrency, which the source calls best effort.
- The tar format, PAX records, temporary files, short writes and I/O errors.
- The write-ahead log, packs, manifests, garbage collection, HTTP registry, configuration and command line.
