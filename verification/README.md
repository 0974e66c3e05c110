# Packed file trees, volumes and image layouts, verified

This project models the storage core of an image building tool and proves what it promises. The tool keeps the files of
a file system under construction *packed* on one block volume: every file has its non-sparse blocks in one contiguous
extent below a high-water mark `data_offset`, its holes in a sorted list, and nothing else. Appending, writing,
truncating, inserting a gap and moving a file to the end all shift whole ranges of the volume and then patch the start
of every other file. A file of such a tree can be used as a volume again, and further volumes, partition tables and FAT
tables are built on the same contract.

What is proved, from the bottom up:

- **Volumes** (`Bytes`, `Volumes`, `Nesting`, `Adapter`). A volume is the endless run of bytes it shows. The contract is
  four predicates on such views: `Shows`, `Stored`, `Copied`, `Discarded`. `VolumeMemmove`, `VolumeRead` and
  `VolumeWrite` meet it for every overlap, alignment and block size, and the block size adapter meets it again for a
  byte window. What holds of bytes holds of blocks, and back: whatever meets the contract on views meets the block
  contract of the base volume, on a disk that shows the view (`StoredOnDisk`, `CopiedOnDisk`, `DiscardedOnDisk`,
  `DiskOfShows`).
- **Hole lists** (`Holes`, `FileNodes`). The list stays sorted, with no empty, overlapping or adjacent holes; this form
  is unique for each set of blocks, and each edit changes the set by exactly one block, or clips it.
- **Ranks and accounting** (`Ranks`, `Accounting`). A stored block is found at the number of stored blocks before it.
  The physical size, rounded up, is the number of stored blocks, even where the tail is partial or sparse.
- **The packed tree** (`Layout`, `Edits`, `Steps`, `Moves`, `AppendSteps`, `WriteSteps`, `FsTree`). `Ok` says that
  non-empty extents are disjoint and below the high-water mark, holes lie inside their files, padding behind a partial
  tail and free space are zeros. Each operation keeps `Ok`, keeps the contents and holes of all other files, loses and
  shares no block (`Kept`), and does to its own file exactly what a function on contents and hole sets says (`Models`).
- **What that means for contents** (`Models`, `Runs`, `Ownership`). A write inside a file, a change of size and a move
  are always exact. An append can go wrong: where the stored, partial tail lies right behind a hole, the tail is taken
  for sparse and ends up in front of the hole. `AppendExact` and `WriteExact` say for all inputs exactly when the result
  is right, in terms of the file, the place and the data; `AppendGoesWrong` is a concrete input. With the flag that all
  three file systems set, every run of operations from an empty tree is exact (`RunExactNoSparse`), and after every run
  every block below the high-water mark belongs to exactly one file (`RunConserves`).
- **Files as volumes** (`FileVolume`). Read, write, move, discard and change of size on a file meet the volume contract
  again, for any block size. Within bounds each operation does to the disk that the file shows (`Disk`) what the base
  volume does to its own: the same blocks set, spliced or cleared, and no others. With the flag set that holds of all
  writes; for files with holes, of all that are `Harmless`.
- **Partitions** (`Mbr`, `PartitionData`). Every operation is given by the new layout and, block by block, by the new
  volume. Shrinking moves no data: it keeps the data of all partitions exactly if nothing is given back, or each block
  that comes to lie lower holds what is there already and the one that comes to lie last is clear (`ShrinkKeepsExact`).
  The same condition decides for a growth, and with one on what the filling partition gets back for a commit
  (`GrowKeepsExact`, `CommitKeepsExact`), whatever unused blocks hold. Where what is given back was clear, it comes down
  to all being clear behind the first partition that gives, or to the last block that is kept (`ShrinkClearExact`).
- **FAT32** (`Fat`, `FatPlaces`). The table is written through a sliding window, and both copies are given byte by byte,
  if the chains fit. For directories and files in a row, and so for those of every tree with the flag set, they do
  exactly if no first cluster is rounded down into the extent before, and the table has an entry for each cluster used
  and for the two reserved ones (`RowExact`, `TreeExact`). The first always holds exactly if the cluster size divides
  the block size of the tree (`PlacementExact`); `WholeClusters` says for which volume sizes that is so. The second can
  fail on a volume that is full, for block counts that `TableShort` names (`FullVolume`).
- **Further layers**: hard link resolution by pointer jumping (`Chains`, `HardLinks`), the dependency tracker
  (`DepTracker`), the stable merge sort, the lists by type and the inode numbering (`Sorting`, `Trees`), and the packed
  records of a file listing (`Listing`), which come back once each.

Objects that the code updates in place are classes, their loops are loops; each method is proved against a function or
predicate on values, and the lemmas are about those.

Where the code departs from what its documentation or comments say, the code is followed:

- `lib/filesystem/fstree/file_append.c:22` stops at a hole that ends right before the tail block (see above).
- In `lib/filesystem/fstree/file_mark_sparse.c:39-44` the branch that joins a hole to the one before it can not be
  reached: the hole before would have been extended in the round before. The model has it as a dead branch.
- `lib/image/partition/mbr/part.c:39-47` shrinks a partition by changing indices; the blocks behind keep their place, so
  that the partitions behind lose their data unless all of it is clear (`ShrinkKeepsExact`, `ShrinkLosesData`).
- `lib/image/partition/mbr/part.c:39` discards the blocks from `max - diff` up to `max`, where `max` is the last block
  that is used, not the first one behind: one block too low. When the last partition shrinks, the last block that it
  keeps is cleared, at a commit even if it is used (`CommitLosesOwnBlock`).
- `lib/image/partition/mbr/part.c:143` grows a partition that is to fill the disk by what is free less what it has, so
  that it ends by its own size before the capacity (`CommitWithinLimit`).
- `lib/filesystem/fatfs/fatfs.c:148-160` and `lib/filesystem/fatfs/fat.c:133` round the first cluster down. With three,
  five, six or seven sectors in a cluster, as `lib/filesystem/fatfs/fatfs.c:9-32` picks them for some volume sizes,
  chains can run into each other (`RoundedOverlap`); `NoOverlap` says for which rows of extents they do not.
- `lib/filesystem/fatfs/fatfs.c:26-31` makes the table large enough for the clusters of the volume, but does not count the
  two reserved entries. A tree that fills its volume can need one or two entries more than there are (`FullVolume`).
- `lib/filesystem/fatfs/fat.c:113-114` clears only the first copy of the table. `CopiesAgree` says when that is enough;
  its only caller has cleared both (`lib/filesystem/fatfs/fatfs.c:197-198`), so that it is (`BuiltCopiesAgree`).
- `lib/image/basic/blocksize_adapter.c:152-160` moves whole blocks without a bounds check.
- `lib/filesystem/fstree/add_gap.c:34-39` also shifts the start of files without blocks, which means nothing there.

## Model

| member | source | states |
|---|---|---|
| `Bytes.ByteIndexUnique` | lib/image/volume_read.c:13-15 | block index and offset of a byte are unique: the source's division and remainder name the only block that holds it |
| `Bytes.BlockCountExact` | lib/filesystem/fstree/file_volume.c:156-166 | the block count of a size is the least number of blocks that hold it |
| `Volumes.Volume.WriteBlock` | include/volume.h:67-74 | one block gets the buffer, or zeros for NULL, and every other block stays |
| `Volumes.Volume.WritePartialBlock` | include/volume.h:76-91 | a part of one block is spliced in, the rest of it and all other blocks stay |
| `Volumes.Volume.MoveBlockPartial` | include/volume.h:101-109 | a memmove of a part of a block into a part of another one or of the same, from the bytes before the call |
| `Volumes.Volume.DiscardBlocks` | include/volume.h:111-118 | exactly the blocks of the range read as zeros afterwards |
| `Volumes.DiscardShows` | include/volume.h:111-118 | discarding blocks means the same said of the bytes a volume shows |
| `Volumes.CopyForward` | lib/image/volume_memmove.c:10-46 | when the destination does not run into the rest of the source, the bytes arrive as they were and nothing else changes |
| `Volumes.ChunkBefore` | lib/image/volume_memmove.c:55-73 | the chunk picked from the back ends at the current bytes, stays inside one block on either side and is not empty |
| `Volumes.CopyBackward` | lib/image/volume_memmove.c:48-93 | the same from the back, for a destination at or behind the source, whatever the overlap |
| `Volumes.VolumeMemmove` | lib/image/volume_memmove.c:95-104 | the destination holds the old source bytes and nothing else changes, for all overlaps, alignments and block sizes |
| `Volumes.CopyFrontThenRest` | lib/image/volume_memmove.c:14-43 | copying the front and then the rest is the copy of the whole, as long as the front does not overwrite the rest |
| `Volumes.CopyBackThenRest` | lib/image/volume_memmove.c:54-90 | copying the back first is the copy of the whole for a destination at or behind the source |
| `Volumes.VolumeRead` | lib/image/volume_read.c:10-39 | the buffer holds what the volume shows in the byte range, from any offset |
| `Volumes.VolumeWrite` | lib/image/volume_write.c:11-45 | exactly the byte range is replaced, by the buffer or by zeros for NULL, whole zero blocks being discarded |
| `Volumes.AlignedCopy` | lib/filesystem/fstree/file_write.c:17-22 | a byte copy whose place and size are multiples of the block size moves whole blocks and touches no other |
| `Volumes.StoreSets` | include/volume.h:76-91 | a store inside one block, said of bytes, sets just that part of the block and no other block |
| `Volumes.DiscardClears` | include/volume.h:111-118 | a discard, said of bytes, clears exactly those blocks |
| `Nesting.DiskOfShows` | lib/filesystem/fstree/file_volume.c:48-60 | any finite contents, extended with zeros, are what some disk shows, for any block size |
| `Nesting.ReadOnDisk` | include/volume.h:58-65 | bytes shown inside one block are those of the block |
| `Nesting.StoredOnDisk` | include/volume.h:76-91 | for two disks that show the views, a store inside one block is the block write of the base volume |
| `Nesting.CopiedOnDisk` | include/volume.h:101-109 | likewise for a copy from one block into one block |
| `Nesting.DiscardedOnDisk` | include/volume.h:111-118 | likewise for a discard |
| `Adapter.WindowStored` | lib/image/basic/blocksize_adapter.c:113-126 | a store in the window is the same store at the shifted place and nothing before the window, both ways |
| `Adapter.WindowCopied` | lib/image/basic/blocksize_adapter.c:152-175 | a copy in the window is the same copy at the shifted places and nothing before the window, both ways |
| `Adapter.CountExact` | lib/image/basic/blocksize_adapter.c:24-33 | an index is below the converted count exactly if the whole block fits behind the offset, with the product capped at 64 bits |
| `Adapter.BlocksizeAdapter.MaxExact` | lib/image/basic/blocksize_adapter.c:24-53 | a block is in bounds exactly if all of it lies in the wrapped volume behind the offset |
| `Adapter.NestedBounds` | lib/image/basic/blocksize_adapter.c:24-53 | what two nested adapters allow, one adapter with both offsets allows |
| `Adapter.NestedExact` | lib/image/basic/blocksize_adapter.c:24-53 | if the inner blocks leave no rest, nested and single bounds are the same |
| `Adapter.WindowOfWindow` | lib/image/basic/blocksize_adapter.c:94-126 | the window of an adapter on an adapter is that of one adapter with both offsets |
| `Adapter.BlocksizeAdapter.ReadPartialBlock` | lib/image/basic/blocksize_adapter.c:94-106 | succeeds exactly if the block is below the maximum and the part ends inside it, then gives the bytes of the window, which are that part of the block on the disk the window shows |
| `Adapter.BlocksizeAdapter.WritePartialBlock` | lib/image/basic/blocksize_adapter.c:113-126 | succeeds exactly under the same bounds and changes nothing else, and then stores in the window and nowhere else, and sets just that part of the block on the disk the window shows |
| `Adapter.BlocksizeAdapter.DiscardBlocks` | lib/image/basic/blocksize_adapter.c:128-145 | clears exactly the blocks of the range that are in bounds, and nothing in front of the window |
| `Adapter.BlocksizeAdapter.MoveBlock` | lib/image/basic/blocksize_adapter.c:152-160 | moves a block of the window, through any block size below: the block is set on the disk the window shows |
| `Adapter.BlocksizeAdapter.MoveBlockPartial` | lib/image/basic/blocksize_adapter.c:162-175 | fails exactly when one of both places is out of bounds, else moves the part within the window, also said of the blocks |
| `Holes.CanonicalUnique` | lib/filesystem/fstree/file_mark_sparse.c:14-71 | two canonical hole lists that cover the same blocks are the same list |
| `FileNodes.FileNode.TryMerge` | lib/filesystem/fstree/file_mark_sparse.c:14-53 | either a hole takes the block in, joining the next one if they come to touch, or no hole contains or touches it |
| `FileNodes.FileNode.InsertNewRegion` | lib/filesystem/fstree/file_mark_sparse.c:55-71 | a hole of one block goes where the list stays canonical |
| `FileNodes.FileNode.MarkSparse` | lib/filesystem/fstree/file_mark_sparse.c:73-91 | exactly one block is added to the set, and the list stays canonical |
| `FileNodes.FileNode.MarkNotSparse` | lib/filesystem/fstree/file_mark_not_sparse.c:14-65 | exactly one block is taken out of the set by trimming, removing or splitting a hole, and the list stays canonical |
| `FileNodes.FileNode.TruncateSparse` | lib/filesystem/fstree/file_truncate.c:13-41 | exactly the blocks below the new count stay sparse |
| `FileNodes.FileNode.ShrinkHole` | lib/filesystem/fstree/file_append.c:39-52 | a hole gives up its last block, and goes if that was all of it |
| `FileNodes.MarkUnmark` | lib/filesystem/fstree/file_mark_not_sparse.c:14-65 | marking a block and unmarking it again gives back the very same list |
| `Ranks.RankStrict` | lib/filesystem/fstree/file_read.c:17-31 | different stored blocks have different ranks, in order |
| `Ranks.RankOnto` | lib/filesystem/fstree/file_read.c:17-31 | every place of the extent is the rank of a stored block |
| `Accounting.StoredOrSparse` | lib/filesystem/fstree/file_accounting.c:34-39 | sparse and stored bytes add up to the size |
| `Accounting.StoredBlocks` | lib/filesystem/fstree/file_accounting.c:34-39 | the physical size rounded up to blocks is the number of stored blocks, and its remainder that of the size unless the tail is sparse |
| `Accounting.RankInHole` | lib/filesystem/fstree/file_write.c:54-78 | for a block in a hole, the sum over the holes passed gives the rank at which it would be stored |
| `Models.AppendedData` | lib/filesystem/fstree/file_append.c:89-122 | what an append makes of the data in every case: the old data, or the misread tail moved up, followed by the new |
| `Models.AppendExact` | lib/filesystem/fstree/file_append.c:15-122 | an append gives old data followed by new exactly if no data goes into a stored tail behind a hole, or that tail holds only zeros |
| `Models.AppendGoesWrong` | lib/filesystem/fstree/file_append.c:22-52 | three appends to an empty file after which the bytes are in the wrong order |
| `Models.AppendedSparse` | lib/filesystem/fstree/file_append.c:97-117 | which blocks are sparse after an append: new blocks of zeros become so, a sparse tail that gets data does not stay so |
| `Models.WrittenData` | lib/filesystem/fstree/file_write.c:137-159 | the block loop of a write replaces exactly the range, whatever is sparse |
| `Models.WrittenSparse` | lib/filesystem/fstree/file_write.c:50-109 | a block becomes sparse exactly if all the file has of it is overwritten with zeros, and stays so exactly if it gets only zeros |
| `Models.FilledTail` | lib/filesystem/fstree/file_write.c:120-125 | filling up with zeros leaves a stored tail behind a hole only where the hole was there before |
| `Models.InsideExact` | lib/filesystem/fstree/file_write.c:111-162 | a write that ends inside the file is exact for all hole layouts |
| `Models.OverwrittenBytes` | lib/filesystem/fstree/file_write.c:111-162 | what is meant by overwriting, byte by byte: the range holds the data, a gap before it zeros, all else what it held |
| `Models.WriteExact` | lib/filesystem/fstree/file_write.c:111-162 | any write gives the contents with the range replaced exactly if it is harmless: no stored tail is taken for sparse, or only zeros go into it, or those of its bytes that would show in front are zeros |
| `Models.SafeExact` | lib/filesystem/fstree/file_write.c:120-135 | filling up and splitting the data do not matter for the condition: it can be read off the old file, the place and the data |
| `Models.ResizedData` | lib/filesystem/fstree/file_truncate.c:43-56 | a change of size keeps the prefix or adds only zeros, without any condition |
| `Models.FileWrittenNoHoles` | lib/filesystem/fstree/file_write.c:80-105 | with the flag set a file without holes gets none and no write can harm it |
| `Layout.EditAtEnd` | lib/filesystem/fstree/file_move_to_end.c:11-65 | the file that lies last can change its blocks freely without anything of the others changing or any block being lost |
| `Steps.BlockAppended` | lib/filesystem/fstree/file_append.c:58-87 | a block put behind the last file appends its data |
| `Steps.TailUnshared` | lib/filesystem/fstree/file_append.c:25-52 | data for a sparse tail in a new last block extends the contents by that data |
| `Steps.TailMisread` | lib/filesystem/fstree/file_append.c:25-52 | what happens instead if the hole ends right before the tail: the tail moves up over the hole |
| `Steps.BlockInserted` | lib/filesystem/fstree/file_write.c:14-30 | a zero block put in at the rank of a sparse block changes no contents |
| `Steps.BlockRemoved` | lib/filesystem/fstree/file_write.c:32-48 | taking out a block that is zeroed altogether and making it sparse writes those zeros |
| `Steps.BlockRewritten` | lib/filesystem/fstree/file_write.c:91-108 | rewriting a stored block splices the data into the contents |
| `Moves.MoveKeeps` | lib/filesystem/fstree/file_move_to_end.c:16-64 | rotating an extent to the end and patching all starts keeps every file's contents and leaves the file last |
| `Moves.TruncateKeeps` | lib/filesystem/fstree/file_truncate.c:59-117 | a cut keeps exactly the prefix, frees exactly the blocks behind it and keeps all other contents |
| `Moves.GapKeeps` | lib/filesystem/fstree/add_gap.c:11-47 | a gap that cuts no file in two keeps all contents, is zeroed, lies outside every extent, and adds just its blocks to the unowned ones |
| `Moves.GapExact` | lib/filesystem/fstree/add_gap.c:11-47 | a gap keeps a file's contents exactly if it does not cut its extent in two, or the file has only zeros from there on |
| `Moves.GapInsideLoses` | lib/filesystem/fstree/add_gap.c:24-39 | a gap inside an extent changes that file's contents |
| `FsTree.FsTree.AddFile` | lib/filesystem/fstree/mknode.c:112-120 | a new file is empty, owns no block and changes no other file |
| `FsTree.FsTree.FileSparseBytes` | lib/filesystem/fstree/file_accounting.c:13-32 | the bytes of the file that lie in sparse blocks, the partial tail counted as far as it goes |
| `FsTree.FsTree.FilePhysicalSize` | lib/filesystem/fstree/file_accounting.c:34-39 | the bytes of the file that lie in stored blocks |
| `FsTree.FsTree.FileBlockCount` | lib/filesystem/fstree/file_truncate.c:59-62 | the rounded up physical size is the number of blocks that the file owns |
| `FsTree.FsTree.UpdateStartsAfterMove` | lib/filesystem/fstree/file_move_to_end.c:50-62 | exactly the files with blocks at the moved place or behind start earlier, by the number of blocks moved |
| `FsTree.FsTree.RotateBlocks` | lib/filesystem/fstree/file_move_to_end.c:30-48 | copying out, closing up and discarding is a rotation of the blocks up to the high-water mark |
| `FsTree.FsTree.MoveToEnd` | lib/filesystem/fstree/file_move_to_end.c:11-65 | the file ends at the high-water mark, every file keeps its contents and holes, no block is lost |
| `FsTree.FsTree.SeekBlock` | lib/filesystem/fstree/file_read.c:17-31 | finds the hole a block lies in, or that there is none, and the place that is the file's start plus the block's rank |
| `FsTree.FsTree.FileRead` | lib/filesystem/fstree/file_read.c:40-83 | any range reads as the contents, extended with zeros behind the end |
| `FsTree.FsTree.SeekTail` | lib/filesystem/fstree/file_append.c:18-32 | the first hole not wholly before the block in front of the tail, and the tail's place if there is none |
| `FsTree.FsTree.AppendToTail` | lib/filesystem/fstree/file_append.c:15-56 | a tail that is a hole, stored, or taken for a hole, each with its exact effect, and nothing else changes |
| `FsTree.FsTree.AppendBlock` | lib/filesystem/fstree/file_append.c:58-87 | the file moves to the end, grows by a block with the data and zeros behind, and nothing else changes |
| `FsTree.FsTree.FileAppend` | lib/filesystem/fstree/file_append.c:89-122 | the file's data and holes become those of `Appended`, all other files stay, no block is lost or shared |
| `FsTree.FsTree.InsertSparseBlock` | lib/filesystem/fstree/file_write.c:14-30 | one zero block is put in at the place, everything behind moves up, the block is not sparse any more |
| `FsTree.FsTree.RemoveFileBlock` | lib/filesystem/fstree/file_write.c:32-48 | one block is taken out, everything behind moves down, the last one is free and the block is sparse |
| `FsTree.FsTree.WriteFilePart` | lib/filesystem/fstree/file_write.c:50-109 | a write inside one block, in all five branches, does to the file just what `WritePart` says and nothing to the others |
| `FsTree.FsTree.WriteInside` | lib/filesystem/fstree/file_write.c:137-159 | the block loop does what `Written` says, with every other file and the block balance untouched |
| `FsTree.FsTree.FileWrite` | lib/filesystem/fstree/file_write.c:111-162 | fill up, append, then write: the file becomes `FileWritten`, all others stay, no block is lost or shared |
| `FsTree.FsTree.UpdateStartsAfterCut` | lib/filesystem/fstree/file_truncate.c:92-102 | exactly the files with blocks that start behind the cut file start earlier |
| `FsTree.FsTree.CutFile` | lib/filesystem/fstree/file_truncate.c:59-70 | holes clipped, size set, and both block counts and the stored part of the tail as they really are |
| `FsTree.FsTree.CloseUp` | lib/filesystem/fstree/file_truncate.c:72-103 | the freed blocks are closed up and the high-water mark and all starts follow |
| `FsTree.FsTree.FileTruncate` | lib/filesystem/fstree/file_truncate.c:43-118 | the file becomes `Resized`, all others stay, no block is lost or shared |
| `FsTree.FsTree.UpdateStartsAfterGap` | lib/filesystem/fstree/add_gap.c:32-39 | every file that starts at the gap or behind starts later |
| `FsTree.FsTree.OpenGap` | lib/filesystem/fstree/add_gap.c:24-46 | blocks behind the gap move up, the gap reads as zeros, starts and high-water mark follow, inside or behind the used region |
| `FsTree.FsTree.AddGap` | lib/filesystem/fstree/add_gap.c:11-47 | the size rounded up to blocks is opened wherever it is asked for; if no file is cut in two, every file keeps its contents and all is in order |
| `Ownership.NoneLost` | lib/filesystem/fstree/file_move_to_end.c:11-65 | block counts add up to the high-water mark exactly if every block below it belongs to some file |
| `Ownership.OneOwner` | lib/filesystem/fstree/file_move_to_end.c:11-65 | no block has two owners, and every owned block is below the high-water mark |
| `Runs.Perform` | include/fstree.h:228-266 | each operation of the tree is a step of the runs below |
| `Runs.StepExact` | include/fstree.h:228-266 | an operation does to the contents of all files exactly what it should if and only if it is harmless to a stored tail |
| `Runs.NoHolesHarmless` | include/fstree.h:25-27 | with the flag set, a tree without holes gets none and every operation is harmless |
| `Runs.RunConserves` | lib/filesystem/fstree/file_truncate.c:72-103 | after every run from an empty tree each block below the high-water mark has exactly one owner, and none above has any |
| `Runs.RunExact` | lib/filesystem/fstree/file_write.c:111-162 | after every run of harmless operations the files hold what was done to each of them, as if each were alone |
| `Runs.RunExactNoSparse` | include/fstree.h:25-27 | with the flag set, that holds of every run |
| `FileVolume.FileVolume.constructor` | lib/filesystem/fstree/file_volume.c:205-251 | block counts from the sizes; a file too small is filled up, which changes nothing that the volume shows; with the flag set a file without holes has none afterwards |
| `FileVolume.FileVolume.GetBlockCount` | lib/filesystem/fstree/file_volume.c:156-166 | the file size in blocks, a partial one counted |
| `FileVolume.FileVolume.ReadPartialBlock` | lib/filesystem/fstree/file_volume.c:28-60 | succeeds exactly if the block is below the maximum and the part ends inside it or at its end; then reads the contents extended with zeros, that is, the part of the block on the disk they make |
| `FileVolume.FileVolume.WritePartialBlock` | lib/filesystem/fstree/file_volume.c:28-74 | succeeds exactly under the same bounds and changes nothing else; then the file becomes `FileWritten`, and if the write is harmless, as it always is without holes, it is a plain store and the block write of the base volume |
| `FileVolume.FileVolume.HarmlessExact` | lib/filesystem/fstree/file_write.c:111-162 | a write is harmless exactly if it replaces the range and nothing else of the contents |
| `FileVolume.FileVolume.WriteBlock` | lib/filesystem/fstree/file_volume.c:81-84 | the same for a whole block, with holes or without |
| `FileVolume.FileVolume.MoveBlock` | lib/filesystem/fstree/file_volume.c:121-129 | the file becomes `FileWritten` with the bytes of the other block; if that is harmless, the block is set to them and nothing else that the volume shows changes |
| `FileVolume.FileVolume.MoveBlockPartial` | lib/filesystem/fstree/file_volume.c:131-144 | succeeds exactly if both parts are in bounds; then the file becomes `FileWritten` with the bytes of the part; if that is harmless, a memmove within the file, overlapping or not, and the block write of the base volume |
| `FileVolume.FileVolume.DiscardBlocks` | lib/filesystem/fstree/file_volume.c:86-119 | exactly the blocks of the range are cleared, whether they are overwritten or cut off and filled up to the minimum, with holes or without |
| `FileVolume.FileVolume.Truncate` | lib/filesystem/fstree/file_volume.c:168-189 | refused above the maximum, nothing at or below the minimum, else a cut of what the volume shows |
| `Chains.CycleExact` | lib/filesystem/fstree/resolve_hard_links.c:42-73 | some chain of links never ends exactly if there is a cycle |
| `Chains.OneEnd` | lib/filesystem/fstree/resolve_hard_links.c:42-73 | a chain of links ends at no more than one node |
| `HardLinks.JumpRound` | lib/filesystem/fstree/resolve_hard_links.c:43-63 | a round of in-place jumps keeps each link on its chain; the links still pointing at links are fewer if any got through, else the same, and each of these points at another of them |
| `HardLinks.StuckCycle` | lib/filesystem/fstree/resolve_hard_links.c:68-71 | a round in which no link gets through while some are left means a cycle |
| `HardLinks.AllThrough` | lib/filesystem/fstree/resolve_hard_links.c:65-66 | when no link points at a link, each points at the end of its chain and there was no cycle |
| `HardLinks.ResolveTargets` | lib/filesystem/fstree/resolve_hard_links.c:14-40 | succeeds exactly if each path is found from the root or from the parent; what is found from the root is preferred |
| `HardLinks.ResolveRounds` | lib/filesystem/fstree/resolve_hard_links.c:42-73 | ends, and succeeds exactly if there is no cycle, with each link at the end of its chain |
| `HardLinks.CountLinks` | lib/filesystem/fstree/resolve_hard_links.c:75-81 | each node's count grows by the number of links that point at it |
| `HardLinks.PointingAtExact` | lib/filesystem/fstree/resolve_hard_links.c:75-81 | that growth is the number of those links |
| `HardLinks.ResolveHardLinks` | lib/filesystem/fstree/resolve_hard_links.c:14-84 | succeeds exactly if all paths are found and no link leads into a cycle; then targets and counts are right, else no count has changed |
| `DepTracker.DepTracker.GetByPtr` | lib/imgtool/fsdeptracker.c:77-103 | one node for each object and role, an old one or a new one in front |
| `DepTracker.DepTracker.FindEdge` | lib/imgtool/fsdeptracker.c:105-127 | one edge for each pair |
| `DepTracker.DepTracker.AddDependency` | lib/imgtool/fsdeptracker.c:129-152 | the graph gains the two objects and the pair, and nothing else |
| `DepTracker.DepTracker.CountDependents` | lib/imgtool/fsdeptracker.c:202-208 | each count is the number of edges that lead to the node |
| `DepTracker.InDegreeExact` | lib/imgtool/fsdeptracker.c:202-208 | and that is the number of those edges |
| `DepTracker.DepTracker.RemoveEdges` | lib/imgtool/fsdeptracker.c:254-274 | exactly the node's own edges go, and all counts still say how many edges lead to each node |
| `DepTracker.DepTracker.Commit` | lib/imgtool/fsdeptracker.c:195-289 | objects are committed once each and after all that depend on them; without failures, all of them exactly if the graph has no cycle, else a cycle is reported |
| `DepTracker.OrderedIsAcyclic` | lib/imgtool/fsdeptracker.c:210-286 | a graph whose objects were all committed in order has no cycle |
| `DepTracker.AllBlocked` | lib/imgtool/fsdeptracker.c:220-224 | when every node left has one depending on it, there is a cycle |
| `Fat.SlideWindow` | lib/filesystem/fatfs/fat.c:30-59 | after a slide the window still shows the table at its place, and both copies hold the table up to there |
| `Fat.FlushWindow` | lib/filesystem/fatfs/fat.c:61-75 | the first copy is the whole table, the second as far as the window goes |
| `Fat.WriteClusterChain32` | lib/filesystem/fatfs/fat.c:79-100 | the entries of a chain go into the table through the window, with as many slides as that takes |
| `Fat.SlideReaches` | lib/filesystem/fatfs/fat.c:38-55 | one slide is enough to have the window where the next entry needs it |
| `Fat.BuildFats` | lib/filesystem/fatfs/fat.c:104-175 | both copies hold the directly built table of all directories and files, the second as far as the window came |
| `Fat.FileChainHolds` | lib/filesystem/fatfs/fat.c:153-165 | the chain of a file starts at its cluster and has the fewest clusters that hold all of its bytes, for every cluster size |
| `Fat.DirChainHolds` | lib/filesystem/fatfs/fat.c:132-147 | the chain of a directory starts at the cluster its first byte is in and has the fewest clusters that hold all of its bytes, but at least one |
| `Fat.CopiesAgree` | lib/filesystem/fatfs/fat.c:113-173 | both copies are the table exactly if the second was clear where the window did not come |
| `Fat.BuiltCopiesAgree` | lib/filesystem/fatfs/fatfs.c:197-205 | the caller clears both copies before, so both are the table |
| `Fat.TableEnds` | lib/filesystem/fatfs/fat.c:104-175 | behind what the window covered the table has only zeros |
| `Fat.ChainReadsBack` | lib/filesystem/fatfs/fat.c:79-100 | following the entries of a chain gives its clusters one after the other and then the end of the chain |
| `Fat.OthersAreFree` | lib/filesystem/fatfs/fat.c:125 | a cluster of no chain is free, and the first two entries keep their fixed values |
| `FatPlaces.ComputeFsParameters` | lib/filesystem/fatfs/fatfs.c:9-32 | as many sectors for a cluster, up to eight, as leave at least 66000 clusters, and the fewest whole sectors with an entry for each cluster, none being added for the two reserved entries |
| `FatPlaces.WholeClusters` | lib/filesystem/fatfs/fatfs.c:9-32 | the cluster size divides the block size of the tree exactly for volumes outside of two ranges of sizes |
| `FatPlaces.PlaceDirs` | lib/filesystem/fatfs/fatfs.c:34-99 | the directories lie one behind the other in whole blocks from the front on, and the total is where they end |
| `FatPlaces.AdjustedHolds` | lib/filesystem/fatfs/fatfs.c:148-160 | the cluster of a file is the one that holds the first sector of its first block |
| `FatPlaces.CloseFits` | lib/filesystem/fatfs/fat.c:38-55 | chains in order, each starting at most 512 clusters behind the last one written, fit the table and the window |
| `FatPlaces.RowExact` | lib/filesystem/fatfs/fat.c:127-165 | for every cluster size and table: the chains of extents in a row fit exactly if each first cluster, rounded down, lies behind the clusters of the extents before, and the last one used has an entry |
| `FatPlaces.RowFits` | lib/filesystem/fatfs/fat.c:127-165 | extents that follow each other in blocks have chains that fit, if a block is a whole number of clusters and all of these and the reserved ones have entries |
| `FatPlaces.RoundedOverlap` | lib/filesystem/fatfs/fatfs.c:148-160 | for every cluster size that does not divide the block size two full blocks, one behind the other, have chains that overlap |
| `FatPlaces.PlacementExact` | lib/filesystem/fatfs/fatfs.c:148-160 | all rows of extents whose clusters have entries in the table have chains that fit exactly if the cluster size divides the block size |
| `FatPlaces.VolumeExact` | lib/filesystem/fatfs/fatfs.c:9-32 | the same with the table that the number of sectors gives; nothing overlaps if the cluster size divides the block size, and with eight sectors the clusters used are the blocks |
| `FatPlaces.TableShort` | lib/filesystem/fatfs/fatfs.c:26-31 | clusters that lie inside the volume lack entries exactly if the volume has a multiple of 128 clusters and one of the last two is used, or one cluster less and the last is used |
| `FatPlaces.FullVolume` | lib/filesystem/fatfs/fatfs.c:26-31 | a volume full of 66048 blocks, whose chain does not fit the table that is made for it |
| `FatPlaces.FilesInRow` | lib/filesystem/fatfs/fat.c:149-165 | sorted by their first block, files that own all blocks of a range lie in a row |
| `FatPlaces.OwnedBehindGap` | lib/filesystem/fatfs/fatfs.c:173-174 | when a gap was made in front of a tree without lost blocks, each block behind the gap has an owner and none in it has |
| `FatPlaces.TreeExact` | lib/filesystem/fatfs/fatfs.c:162-205 | for directories in the gap and the sorted files of any such tree without holes behind it, on a volume of any number of sectors: their chains fit the table exactly under those two conditions, and with eight sectors the second is one on the high-water mark |
| `Mbr.MbrDisk.ShrinkPartition` | lib/image/partition/mbr/part.c:9-49 | gives back whole MiB but never below the minimum, all behind change their index but not their data, and exactly as many blocks are discarded as are given back, the ones in front of the last block of all |
| `Mbr.ShrunkLeast` | lib/image/partition/mbr/part.c:16-28 | what is left is the least whole number of MiB that is not below the minimum and gives no more back than asked for |
| `Mbr.MbrDisk.ShrinkToFit` | lib/image/partition/mbr/part.c:116-129 | the same shrink to what is used, in whole MiB, or the minimum |
| `Mbr.FittedLeast` | lib/image/partition/mbr/part.c:116-129 | what is left is the least whole number of MiB below neither what is used nor the minimum |
| `Mbr.MbrDisk.GrowPartition` | lib/image/partition/mbr/part.c:51-96 | grows by whole MiB after all behind have given back; the layout stays valid; block by block the volume is that of the shrinks, then all behind moved up and zeros put in |
| `Mbr.GrowByLeast` | lib/image/partition/mbr/part.c:66-67 | the growth is the least whole number of MiB, above zero, that is not below what is asked for |
| `Mbr.GrownExact` | lib/image/partition/mbr/part.c:51-96 | no slot before changes, the own one grows by that, and each behind has its least size |
| `Mbr.MovedLayout` | lib/image/partition/mbr/part.c:41-47 | moving all behind by the difference keeps slot order, contiguity, whole MiB and minimum sizes |
| `Mbr.FitExact` | lib/image/partition/mbr/part.c:59-64 | giving back changes no slot before and brings each behind to its least size |
| `Mbr.MbrDisk.GetFreeSpace` | lib/image/partition/mbr/part.c:98-114 | the blocks between the last partition and the capacity limit |
| `Mbr.LimitGreatest` | lib/image/partition/mbr/part.c:98-114 | the limit is the greatest whole number of MiB within the volume and 28 bit block numbers |
| `Mbr.MbrDisk.ApplyExpandPolicy` | lib/image/partition/mbr/part.c:131-146 | only a filling partition with less than is free grows, by the difference; layout and volume are those of the growth |
| `Mbr.MbrDisk.PartWritePartialBlock` | lib/image/partition/mbr/part.c:175-206 | fails exactly behind the end of a partition that must not grow, else the partition has grown if it must, the block is counted as used, and exactly its bytes are written |
| `Mbr.MbrDisk.PartDiscardBlocks` | lib/image/partition/mbr/part.c:208-228 | exactly the used part of the range is cleared, and not used any more if it was the last |
| `Mbr.MbrDisk.PartTruncate` | lib/image/partition/mbr/part.c:382-415 | the partition gets exactly the size in whole MiB, unless that is not above its minimum; the volume is that of the shrink or the growth |
| `Mbr.RoundUpLeast` | lib/image/partition/mbr/part.c:389-393 | sizes are rounded up to the least whole number of MiB not below them |
| `Mbr.ResizedExact` | lib/image/partition/mbr/part.c:401-414 | no slot before changes, the own one gets the size, and each behind keeps its size, or gets its least one when there is a growth |
| `Mbr.MbrDisk.Resize` | lib/image/partition/mbr/part.c:401-408 | a shrink or a growth by the difference leaves just that size, with the volume given block by block |
| `Mbr.MbrDisk.PartSetFlags` | lib/image/partition/mbr/part.c:325-339 | at most one partition is to fill the disk |
| `Mbr.MbrDisk.CreatePartition` | lib/image/partition/mbr/disk.c:32-101 | fails exactly at four partitions, else a cleared one of whole MiB lies behind all others |
| `Mbr.MbrDisk.CommitLayout` | lib/image/partition/mbr/disk.c:110-118 | everything shrinks to what is used, then the one filling partition grows by what is left; the volume is given block by block |
| `Mbr.CommittedExact` | lib/image/partition/mbr/disk.c:110-118 | every partition has its least size, but for the one that fills, which has what is left |
| `Mbr.CommitWithinLimit` | lib/image/partition/mbr/disk.c:110-118 | when a filling partition grows, the partitions end exactly by its old size before the capacity, else they end where the shrinks leave them |
| `PartitionData.ShrinkKeepsExact` | lib/image/partition/mbr/part.c:37-47 | shrinks keep the data of all partitions exactly if nobody gives back, or each block that comes to lie lower holds what is there already and the one that comes to lie last is clear |
| `PartitionData.ShrinkClearExact` | lib/image/partition/mbr/part.c:37-47 | if the freed blocks were clear, that is so exactly if nobody gives back, or only the last one does and the last block it keeps is clear, or all behind the first that gives is clear |
| `PartitionData.ShrinkOneExact` | lib/image/partition/mbr/part.c:9-49 | one shrink keeps all data exactly if it is the last partition and the last block it keeps is clear, or each block behind repeats the one as far before as is given back, and the last of all is clear |
| `PartitionData.ShrinkOneClear` | lib/image/partition/mbr/part.c:9-49 | the same where the freed blocks were clear: all behind is clear, or the last block kept |
| `PartitionData.FitKeepsExact` | lib/image/partition/mbr/part.c:116-129 | for all partitions from some slot on giving back what they do not use: the condition of the shrinks, and what it comes to where the freed blocks were clear |
| `PartitionData.GrowKeepsExact` | lib/image/partition/mbr/part.c:51-96 | a growth keeps the data of all exactly if the shrinks behind it do; up to the growing partition it always does, and what is added is clear |
| `PartitionData.GrowKeepsData` | lib/image/partition/mbr/part.c:77-94 | when no partition behind has anything to give back, a growth keeps all data, whatever unused blocks hold |
| `PartitionData.GrowClearExact` | lib/image/partition/mbr/part.c:51-96 | where what is given back was clear, exactly if the shrinks do no harm |
| `PartitionData.CommitKeepsExact` | lib/image/partition/mbr/disk.c:110-118 | a commit keeps the data of all exactly if its shrinks do, and the partition that fills gets back only blocks that were clear |
| `PartitionData.CommitClearExact` | lib/image/partition/mbr/disk.c:110-118 | where what is given back was clear, exactly if the shrinks do no harm |
| `PartitionData.ShrinkLosesData` | lib/image/partition/mbr/part.c:37-47 | two partitions of which the second loses its data when the first shrinks |
| `PartitionData.CommitLosesOwnBlock` | lib/image/partition/mbr/part.c:39 | a single partition that loses a block it uses when it is committed |
| `PartitionData.GrownUnused` | lib/image/partition/mbr/part.c:51-96 | unused blocks that are clear stay so through a growth that does no harm |
| `PartitionData.CommittedUnused` | lib/image/partition/mbr/disk.c:110-118 | and through a commit that does no harm |
| `PartitionData.WrittenUnused` | lib/image/partition/mbr/part.c:175-206 | and through a write, which counts its block as used |
| `PartitionData.ResizedUnused` | lib/image/partition/mbr/part.c:382-415 | and through a change of size that keeps the data, which counts all of its partition as used |
| `PartitionData.DiscardedUnused` | lib/image/partition/mbr/part.c:208-228 | and through a discard, which frees the last used blocks |
| `PartitionData.CreatedUnused` | lib/image/partition/mbr/disk.c:32-101 | and a new partition is all clear |
| `Sorting.Merge` | lib/filesystem/fstree/sort.c:17-40 | merging two sorted lists sorts their concatenation stably |
| `Sorting.SortNodeList` | lib/filesystem/fstree/sort.c:67-93 | a sorted permutation in which elements that compare equal keep their order |
| `Sorting.StableUnique` | lib/filesystem/fstree/sort.c:67-93 | there is only one such list |
| `Trees.ByNameOrders` | lib/filesystem/fstree/sort.c:12-15 | the comparison is a total preorder of nodes |
| `Trees.StrcmpExact` | lib/filesystem/fstree/sort.c:12-15 | it is that of strcmp: a prefix comes first, else the name with the lower character where they first differ |
| `Trees.SortNodeRecursive` | lib/filesystem/fstree/sort.c:123-136 | the same tree with each directory stably sorted |
| `Trees.ChildrenInOrder` | lib/filesystem/fstree/sort.c:123-136 | the children of each directory of the sorted tree come in the order of their names |
| `Trees.SortKeepsNodes` | lib/filesystem/fstree/sort.c:123-136 | sorting loses and doubles no node of any kind |
| `Trees.LinearizeDirTree` | lib/filesystem/fstree/sort.c:138-176 | the wanted nodes of a directory, then those of each directory below, in order |
| `Trees.WalkExact` | lib/filesystem/fstree/sort.c:138-176 | that walk comes by each wanted node once and by no other |
| `Trees.FstreeSort` | lib/filesystem/fstree/sort.c:178-192 | each list by type holds every node of that type of the tree exactly once, the root heading the directories |
| `Trees.ListedExact` | lib/filesystem/fstree/sort.c:178-192 | a node is in the list of its type exactly if some way of children leads from the root to it |
| `Trees.CountInodesDfs` | lib/filesystem/fstree/create_inode_table.c:13-32 | the number of nodes that are no hard links |
| `Trees.MapInodesDfs` | lib/filesystem/fstree/create_inode_table.c:34-49 | fills the table from the shared index on with the walk below a directory and nothing else |
| `Trees.CreateInodeTable` | lib/filesystem/fstree/create_inode_table.c:51-72 | the table is the root followed by the walk, and exactly full |
| `Trees.OrderExact` | lib/filesystem/fstree/create_inode_table.c:51-72 | each node that is no hard link has exactly one number below the count |
| `Trees.NumberedExact` | lib/filesystem/fstree/create_inode_table.c:51-72 | a node has a number exactly if some way of children leads from the root to it and it is no hard link |
| `Trees.OrderFollows` | lib/filesystem/fstree/create_inode_table.c:34-49 | the children of each directory stand together, behind their directory |
| `Listing.SizeExact` | lib/imgtool/filesource/listing.c:114-151 | the size worked out before is the number of bytes of the record, and always fits an empty pool |
| `Listing.EncodeEntry` | lib/imgtool/filesource/listing.c:153-204 | exactly those bytes are written, at the moving pointer, and nothing beside them |
| `Listing.LoadU32` | lib/imgtool/filesource/listing.c:94-112 | reads back a number stored in one, two or four bytes |
| `Listing.DecodeRecord` | lib/imgtool/filesource/listing.c:235-340 | reading a record gives all that the format keeps of the entry and ends where the record ends |
| `Listing.KeptExact` | lib/imgtool/filesource/listing.c:235-341 | what is read back of an entry: kind, name, target; owner unless it is a hard link; mode unless it is a link, of a symbolic link the bits above the permissions; the device number of devices |
| `Listing.Listing.GetPool` | lib/imgtool/filesource/listing.c:53-74 | the first pool with room, or a new empty one behind all |
| `Listing.Listing.AddEntry` | lib/imgtool/filesource/listing.c:590-598 | the pools hold the entries they held and the new one |
| `Listing.Listing.GetNextRecord` | lib/imgtool/filesource/listing.c:206-346 | gives the record at the offset and moves on to the next, or reports the end exactly when all have been read |
| `Listing.Listing.Drain` | lib/imgtool/filesink.c:208-213 | read from the start to the end, a listing gives each record of its pools once, in order |
| `Listing.KeptOneMore` | lib/imgtool/filesource/listing.c:590-598 | if the pools hold one more entry, in whatever order, one more record is drained and no other |

## Left out

- Capacity and failure of the base volume: it is unbounded, and reads, writes and moves on it succeed; I/O errors, allocation failure and reference counts are not modelled.
- Integer widths: sizes, indices and counts are unbounded. Hole indices and counts have 32 bits in the source, and clusters and sizes of the FAT do too; byte values, the 28 bit table entries and the 64 bit cap of the adapter are modelled.
- The base volume over a file (`lib/image/basic/file_volume.c`), whose bitmap and byte count keep no simple view, is not part of this model.
- FsTree.FsTree.constructor: requires a volume that reads as zeros, which the source takes for granted (`lib/filesystem/fstree/file_append.c:25-27` does not write the zeros that belong into a tail); a volume with old data in it, such as a used block device, is not modelled.
- FsTree.FsTree.AddGap: promises an orderly tree only if the place cuts no file in two, because the code does not check that; what happens to contents otherwise is `Moves.GapExact`.
- FsTree.FsTree.FileWrite: requires that a NULL buffer does not straddle the end of the file, because the code offsets the pointer there.
- FileVolume.FileVolume.WritePartialBlock: requires the same of a NULL buffer, which the base volume takes anywhere; so does `FileVolume.FileVolume.WriteBlock`.
- FileVolume.FileVolume.MoveBlock: the order in which the source and the destination are checked, and so which error message appears, is not modelled.
- Scanning memory for zeros word by word: only its result is modelled.
- The pointers of nodes and lists: hole lists, node lists, edges and pools are sequences. The tree for sorting and numbering is a value with an id for each node, so that relinking in place is not captured; a node's number is its place in the table.
- `merge_by_type` and `fstree_sort_node_list_by_type` (lib/filesystem/fstree/sort.c:42-65, 95-121) are the same code on another link field.
- `adapter_truncate` (lib/image/basic/blocksize_adapter.c:63-81), which scales by the wrapped block size, and the minimum and current counts of the adapter, which are converted like the maximum.
- Adapters, file trees and the byte functions are written against the base volume class and are not run on a file volume or an adapter: those have bounds and can fail. That they meet the same block contract within their bounds is in their own contracts.
- Fat.BuildFats: requires that the chains fit, because the loop relies on it: it only ever moves the window forward, by half of it; `FatPlaces.RowExact` and `FatPlaces.TreeExact` say exactly when they do. What the loop writes where they do not is not modelled. The super block, directory entries and short names are not part of this model.
- PartitionData.ShrinkClearExact: takes it, as the other lemmas whose names end in `Clear` or `ClearExact` do, that the blocks given back were clear; the lemmas they follow from do not. That unused blocks are clear lasts until the first shrink that does harm: `PartitionData.CreatedUnused`, `WrittenUnused`, `DiscardedUnused`, `GrownUnused`, `ResizedUnused` and `CommittedUnused`. A change to a smaller size gives back used blocks, too, clear or not.
- Mbr.MbrDisk.CommitLayout: the header with its geometry fields, types and boot flag is not modelled, nor are the block moves, reads, and the unused base block count of a partition (`lib/image/partition/mbr/part.c:150-173`, `230-273`, `296-316`).
- HardLinks.ResolveHardLinks: the lookup of paths is a parameter, from the root and from the parent directory.
- DepTracker.DepTracker.Commit: the commit of an object is its name in a log, or a failure by choice of the caller; what it does to the object is not modelled. Object and role are a key.
- Listing.Listing.AddEntry: parsing of a line, canonical paths and opening of files are left out; the limits of the format on name and target lengths are required, and names hold no zero byte.
- Tar and cpio, directory scans, compression, configuration and the command line.
