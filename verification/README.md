# NiTianOS, verified

A Dafny model of the parts of NiTianOS, a small x86 teaching kernel, that carry invariants,
with proofs about it: the file system from bytes on a disk up to paths, the scheduler with
semaphores and reentrant locks, wait and exit, the kernel heap, pipes and ring buffers, and
three self-contained algorithms: the edge sort and the 'cmap' format 4 search of
stb_truetype, and the FAT12 image builder. `dafny verify dfyconfig.toml` checks all of it.

Code that changes things in place is imperative here too: the classes `Bitmap`, `Volume`,
`FileSystem`, `Scheduler`, `ProcessTable`, `KernelHeap`, `Queue`, `FileTable` and `List` have
the fields of the C structures, and each of their methods is proved against a specification
on values, about which the theorems are. Where preemption is the point (`Sync`, `Sched`,
`WaitExit`, `IoWait`) the kernel is a state machine, and the theorems are about every run.

## Where to start

* `FileIo`, `Links`, `Volume`: a file is twelve direct blocks and an index block; the
  invariant `FsOk` says that no sector is referred to twice, that every sector referred to is
  marked, that both bitmaps equal their copies on disk, and that what is open in memory is
  what the table holds. `FileWrite` and `FileRead` are proved to overwrite and to yield runs
  of the file's bytes.
* `DirTree`, `PathWalk`, `PathSearch`, `FsState`, `FsCalls`, `FsTheorems`, `MkdirDepth`: the
  disk holds a tree of names (`Settled`, which is `FileSystem.Valid()`). `PartitionFormat` sets
  it up, every call requires it and says exactly when it gives it back; but for the cases
  listed below it holds in every state that formatting, mounting, creating, opening, writing,
  unlinking, making and removing directories can reach. `TreeOk` in it carries a ghost depth,
  which is why the walk up by ".." ends.
* `Sync`: one step a statement of `sync.c`, any preemption where interrupts are on.
* `Sched`, `WaitExit`, `IoWait`, `Pipes`, `IoQueue`, `Pool`, `EdgeSort`, `Cmap4`, `Fat12`.

## Where the code does not do what it seems to promise

Each of these is proved, with the exact condition where there is one.

* `file_write` does not look at the result of `block_bitmap_alloc`: it goes to a sector beyond
  the disk if and only if fewer sectors are free than the write needs (`FileIo.Volume.FileWrite`).
  Its size check wraps at 32 bits, and a write that passes it is cut at 140 blocks.
* `inode_release` frees the direct blocks and the index block; the sectors behind the index
  block stay marked if and only if there are any (`FsTheorems.SectorsLost`).
* `partition_format` leaves one bit too many clear, and that sector is beyond the partition
  under an exact condition (`Format.ExtraSector`); beyond the disk too if the partition ends
  with it. Under 620 sectors it leaves the root's block free, under 613 it has none for the map,
  and for some very large partitions it writes past its buffer (`Format.PartitionFormat`).
* `create_file` does not check the depth of the path: with a missing directory on the way a
  file of the directory's name is made and `open_file` fails (`FsTheorems.StrayFile`); unless
  that was in the root, it then closes a directory it has closed (`FsCalls.FileSystem.OpenFile`).
  With a regular file on the way it goes on with a null pointer, if and only if an inode number
  is free (`FsCalls.FileSystem.CreateFile`, `PathSearch.NoDirMeans`).
* `path_parse` takes a longer component for two, which can mislead the depth test of
  `sys_mkdir`. For which paths it can, in some tree, is known exactly and can be read off the
  path (`MkdirDepth.DepthTestExact`); paths without such components are sound
  (`MkdirDepth.NoLongSound`). A long name makes the directory of its first 15 characters, or
  comes to a null pointer if those name a file (`MkdirDepth.LongNameCut`); with a slash at the
  end a directory's own name is entered in it, a second time if it was listed there
  (`PathSearch.LongNameMisleads`, `FsCalls.FileSystem.Mkdir`). And the test refuses a path with
  a slash too many (`MkdirDepth.DepthAccepts`).
* `dir_is_empty` goes by the size, which shrinks only when the furthest entry goes, and then to
  the place of that entry: it is right when it says so, and when the last entry goes it can
  refuse the empty directory, which it does if and only if that entry was not the first after
  ".." or the size was more than that of three (`DirTree.LastDropped`,
  `FsTheorems.EmptiedRemovable`).
* `sys_rmdir` by a path that ends in "/." clears "." in the directory, releases its inode and
  block, and leaves it listed where it lies (`FsCalls.FileSystem.Rmdir`,
  `FsTheorems.DotNamesItself`). It removes the current directory too, after which `sys_getcwd`
  finds no path (`FsCalls.FileSystem.Getcwd`) and the shell stops in an assertion on a relative
  one (`PathText.MakeClearAbsPath`).
* An entry that is made and taken out again leaves the directory's size changed if and only if
  it took the last place below the size (`DirTree.AddThenDrop`).
* `search_file` leaves handles open on the directories it passed, n - 2 for a path of n
  components that is found (`PathSearch.HandlesLeft`); `sys_rmdir` leaves a stale
  inode in memory if and only if there is another handle on the directory
  (`FsCalls.FileSystem.Rmdir`).
* `ioq_putchar` and `ioq_getchar` sleep without looking at the ring again after waiting for the
  queue's lock, so that a writer can sleep on an empty ring (`IoWait.SleepsForNothing`,
  `IoWait.SecondWriterSleeps`).
* `pipe_write` reckons with 64 places where there are 63, and so waits if and only if the count
  is more than 63 less the length (`IoQueue.Queue.PipeWrite`).
* Pipe counts: an open file inherited by a fork, a redirection of a descriptor from 3 on, and a
  pipe on descriptors 0 to 2 at a fork each break the count, the last one for good
  (`Pipes.ForkKeeps`, `Pipes.RedirectUncounted`, `Pipes.ForkThenEnd`).
* `sys_exit` can leave init asleep beside a child to reap (`WaitExit.ExitMayMissInit`).
* `get_kernel_pages` maps address 0 if and only if frames run short (`Pool.AllocRunOk`), and
  `page_table_add` keeps the translation of a large page it splits if and only if the page
  mapped the region to itself (`Pool.SplitKeeps`).
* The image builder gives an empty file the first cluster of the file after it
  (`Fat12.FileReadsBack`).
* The quicksort leaves an entry between its two parts when the scans have crossed by one; it is
  equal to the pivot, and the insertion sort that follows finishes in any case.

## Model

| member | source | states |
|---|---|---|
| `FileIo.Volume.FileWrite` | src/kernel/fs/file.c:89-168 | With the position inside the file or at its end: nothing happens when the 32-bit sum of position and count is beyond 140 blocks; otherwise the call stops in a disk access outside the disk exactly when fewer sectors are free than the new blocks and the index block need, and if not the file becomes its old bytes overwritten with the run, grown as needed, at the position plus count; every other inode and every sector of theirs is as it was, and the invariant of the partition holds again |
| `FileIo.Volume.FileRead` | src/kernel/fs/file.c:37-87 | What is read is the run of the file's bytes from the position, cut at the end of the file, and the position moves by its length |
| `FileIo.Volume.WriteNext` | src/kernel/fs/file.c:113-158 | One turn of the writing loop, in the middle of the call, as a write of its own |
| `FileIo.Volume.EnsureBlock` | src/kernel/fs/file.c:118-143 | The next block of a file, direct or behind the index block, comes to be there: no earlier block changes, no other inode does, and sectors run short exactly when there are too few |
| `FileIo.Volume.WriteChunk` | src/kernel/fs/file.c:144-158 | Reading, patching and writing back one sector overwrites that run of the file and nothing else |
| `FileIo.Volume.ReadRun` | src/kernel/fs/file.c:64-82 | Block by block the loop collects exactly that run of the file |
| `FileIo.DemandStep` | src/kernel/fs/file.c:118-136 | The sectors a run needs are those of its part so far and those of its next block |
| `LinkSteps.WrittenReadsBack` | src/kernel/fs/file.c:37-168 | After a write the run reads back, the bytes before it and after it are the old ones, and every other file, inode and bytes, is as it was |
| `LinkSteps.ChunkStep` | src/kernel/fs/file.c:144-158 | One sector of one inode overwritten is one run of its bytes overwritten, whatever the size was, and all references stay |
| `LinkSteps.EntryStep` | src/kernel/fs/file.c:131-135 | A free sector entered in the index block becomes one more reference and disturbs none |
| `LinkSteps.IndexStep` | src/kernel/fs/file.c:124-130 | A cleared free sector becomes the index block without any block appearing behind it |
| `LinkSteps.SlotIsAlone` | src/kernel/fs/file.c:118-136 | No sector is referred to from two slots of allocated inodes, index blocks counted |
| `LinkSteps.LeaveCall` | src/kernel/fs/file.c:160-164 | Once the inode worked on is written back, table, maps and open inodes agree again for all inodes |
| `FileIo.Volume.Lseek` | src/kernel/fs/fs.c:612-641 | A seek succeeds exactly for a known origin and a place inside the file or at its end, 32-bit overflow included, and leaves the position no further than the size, which writing relies on |
| `Inodes.LocateCovers` | src/kernel/fs/inode.c:11-20 | The one or two sectors located for an inode hold all of its 76 bytes and lie in the table |
| `Inodes.DecodeOfEncode` | src/kernel/fs/inode.c:70-88 | An inode written to the table reads back |
| `Volumes.PutInodeEffect` | src/kernel/fs/inode.c:70-88 | Writing an inode back changes that inode and no other, even one sharing a sector with it, no data sector and neither bitmap |
| `FileIo.Volume.InodeSync` | src/kernel/fs/inode.c:70-88 | Reading, patching and writing one or two sectors puts the inode at its place in the table |
| `FileIo.Volume.InodeOpen` | src/kernel/fs/inode.c:22-57 | The first handle reads the table, a further one counts up |
| `FileIo.Volume.InodeClose` | src/kernel/fs/inode.c:59-68 | The last handle takes the copy out of memory, another counts down |
| `FileIo.Volume.InodeRelease` | src/kernel/fs/inode.c:90-114 | The number and the sectors named in the inode itself become free, no others, and no reference of another inode is lost |
| `FsTheorems.SectorsLost` | src/kernel/fs/inode.c:90-114 | Of the sectors a file refers to, releasing it gives back the twelve direct ones and the index block; all of them are given back if and only if the file had at most twelve blocks |
| `FileIo.Volume.BlockBitmapAlloc` | src/kernel/fs/fs.c:162-170 | The least free sector, or -1 if and only if there is none; the map on disk is the map in memory again |
| `FileIo.Volume.BlockBitmapFree` | src/kernel/fs/fs.c:172-176 | One bit is cleared, in memory and on disk |
| `FileIo.Volume.InodeBitmapAlloc` | src/kernel/fs/fs.c:178-186 | The least free inode number, or -1 if and only if there is none |
| `FileIo.Volume.InodeBitmapFree` | src/kernel/fs/fs.c:188-191 | One bit of the inode map is cleared, in memory and on disk |
| `FileIo.Volume.SyncBlockMap` | src/kernel/fs/fs.c:22-30 | Writing the one sector of the map that a bit lies in is enough when the others agreed before |
| `FileIo.Volume.Mount` | src/kernel/fs/fs.c:109-129 | Both maps in memory are those on disk and the root is open |
| `Bitmaps.Bitmap.Scan` | src/kernel/memory/bitmap/bitmap.c:29-50 | The least run of that many clear bits, and -1 if and only if there is no such run or none was asked for |
| `Bitmaps.Bitmap.Set` | src/kernel/memory/bitmap/bitmap.c:17-27 | One bit changes and no other; past the end nothing does |
| `Bitmaps.Bitmap.ScanTest` | src/kernel/memory/bitmap/bitmap.c:9-15 | -1, 1 and 0 for past the end, set and clear |
| `Bitmaps.BitRestored` | src/kernel/memory/bitmap/bitmap.c:17-27 | Setting a clear bit and clearing it again restores the map |
| `Bitmaps.ClearBitsOfWithBit` | src/kernel/memory/bitmap/bitmap.c:17-27 | The set of free bits loses or gains exactly that bit |
| `Format.PartitionFormat` | src/kernel/fs/fs.c:34-107 | The call stops in an access that is not allowed if and only if there is no sector left for the map (under 613) or the run of ones after the map leaves its buffer; otherwise what is written, read back, is a partition in order that holds the tree of the root alone if and only if there are at least 620 sectors and the bit cleared too many, if there is one, is of a sector of the disk; the layout is in the super block and nothing outside the partition's own sectors changes |
| `Format.WhenOverrun` | src/kernel/fs/fs.c:68-76 | That run leaves the buffer if and only if the map is full to its last sector, is as long as the inode table or longer, and fills whole pages |
| `Format.LayoutReadsBack` | src/kernel/fs/fs.c:43-66 | A formatted partition is recognised by its magic number, each of the thirteen words of the super block is the one its structure has there, and the layout taken from them is the one it was formatted with |
| `Format.FormatAndMount` | src/kernel/fs/fs.c:131-160 | Formatting and then mounting gives a file system in order that holds the root alone, if and only if formatting left such a partition |
| `Format.BlockMapImage` | src/kernel/fs/fs.c:72-82 | The bits beyond the map's length are set and those up to it, the one past the last sector included, are clear; the root block's bit survives if and only if the length is at least eight |
| `Format.RootInodeImage` | src/kernel/fs/fs.c:88-93 | The table's first 76 bytes are the root: a directory of 48 bytes with its one block |
| `Format.LayoutValid` | src/kernel/fs/fs.c:34-63 | The map, the inode map, the table and the data follow one another and the map has a bit for every sector of the data area |
| `Format.ExtraSector` | src/kernel/fs/fs.c:41-81 | The sector the map offers too many lies past the end of the partition if and only if the map's last sector is not used up and was not saved by working out its size twice |
| `DirTree.AddKeepsTree` | src/kernel/fs/fs.c:255-291 | Entering a new file or directory keeps the directories a tree with unique names, every entry below the size of its directory |
| `DirTree.DropKeepsTree` | src/kernel/fs/fs.c:338-385 | Taking out a file or an empty directory keeps it one |
| `DirTree.SizeMeansEmpty` | src/kernel/fs/dir.c:116-118 | A directory whose size is that of two entries holds nothing but "." and ".." |
| `DirTree.AddMeans` | src/kernel/fs/fs.c:255-291 | Place by place: the entry takes the first vacant place and no other changes; the size grows to the end of that place if it lies beyond it and stays otherwise; with no place vacant nothing changes |
| `DirTree.DropMeans` | src/kernel/fs/fs.c:338-385 | The first place with that number becomes vacant and no other changes; the size shrinks to the beginning of that place if it did not reach beyond it, and stays otherwise |
| `DirTree.AddThenDrop` | src/kernel/fs/fs.c:255-385 | An entry made and taken out again leaves the directory as it was, size included, if and only if the first vacant place is not the last one below the size |
| `DirTree.DropThenAdd` | src/kernel/fs/fs.c:255-385 | An entry taken out and made again does if and only if no place before it was vacant |
| `DirTree.LastDropped` | src/kernel/fs/fs.c:338-385 | Not the other way round: when the last entry is taken out of a directory the size is that of two entries again if and only if the entry was the first after ".." and the size was that of three |
| `DirTree.EmptyButTooLong` | src/kernel/fs/dir.c:116-118 | For one, two entries made and removed in the same order leave the directory empty and its size that of three |
| `DirTree.EmptyTreeOk` | src/kernel/fs/fs.c:95-104 | The tree formatting leaves is one |
| `DirSector.FieldsOf` | src/kernel/fs/dir.h:17-21 | The fields of each of the 21 entries of a block read back as they were put in |
| `DirSector.HoldsPut` | src/kernel/fs/dir.h:17-21 | Overwriting one entry of a block leaves the other twenty |
| `DirSector.FillsEntry` | src/kernel/fs/fs.c:273-277 | Filling a free entry field by field makes it that entry |
| `DirSector.ScanName` | src/kernel/fs/fs.c:235-245 | The first entry of that name, by comparing strings in the block |
| `FsState.SettledMeansFsOk` | src/kernel/fs/fs.c:109-129 | The invariant of the tree level is that of the byte level, and the block of every directory holds its entries |
| `FsState.AddStored` | src/kernel/fs/fs.c:255-291 | With an entry written into its directory's block the disk holds the tree with that entry, and every other inode and its bytes are as before |
| `FsState.DropStored` | src/kernel/fs/fs.c:338-385 | With an entry cleared the disk holds the tree without it |
| `FsState.NewDirStored` | src/kernel/fs/fs.c:721-749 | A new inode with a free sector for its block holds "." and ".." and disturbs nothing |
| `FsState.NewFileStored` | src/kernel/fs/fs.c:463-482 | A new inode number with an empty inode disturbs nothing, and the file has no bytes |
| `FsCalls.FileSystem.Mount` | src/kernel/fs/fs.c:131-160 | Mounting a disk that holds a tree gives a file system in order with that tree, the current directory at its root |
| `FsCalls.FileSystem.SearchDirEntry` | src/kernel/fs/fs.c:208-253 | A name is found if and only if the directory lists it, with its number and type |
| `FsCalls.FileSystem.SearchFile` | src/kernel/fs/fs.c:387-442 | The search on the disk gives what the search in the tree gives: number, type, parent, the path searched, and the handles it leaves open |
| `FsCalls.FileSystem.CreateDirEntry` | src/kernel/fs/fs.c:255-291 | The call fails if and only if no place of the directory's one block is vacant; otherwise the entry takes the first vacant place, no other changes, and the size becomes the end of that place if that is more |
| `FsCalls.FileSystem.DeleteDirEntry` | src/kernel/fs/fs.c:338-385 | The call fails if and only if no place has that inode number; otherwise the first such place is cleared, no other changes, and the size shrinks to its beginning if it did not reach beyond it |
| `FsCalls.FileSystem.CreateFile` | src/kernel/fs/fs.c:456-507 | The call goes on with a null pointer if and only if the search left no directory and an inode number is free; otherwise a file is made if and only if the path leads nowhere, a number is free and the directory where the search stopped has room; it is entered there, the least number is its, it has no bytes, and no other file changes |
| `FsCalls.FileSystem.OpenFile` | src/kernel/fs/fs.c:509-562 | Opening, descriptors aside: when it goes on with a null pointer, which file is opened, when one is made first, which handles are left open, and that a handle is closed a second time if and only if a file was made in a directory other than the root and the second search ended at a file in the middle of the path |
| `FsCalls.FileSystem.MakeAndOpen` | src/kernel/fs/fs.c:518-530 | The part under O_CREAT: the path is searched again in the tree with the new file, which stays even if that finds nothing; the null pointer under the condition of create_file |
| `FsCalls.FileSystem.SearchAgain` | src/kernel/fs/fs.c:520-526 | The second search, whose record still names the directory of the first when it ends at a file in the middle of the path |
| `FsCalls.FileSystem.Mkdir` | src/kernel/fs/fs.c:695-763 | For every absolute path: the call goes on with a null pointer if and only if the depths agree, the search left no directory, and a number and a sector are free; it succeeds if and only if the depths agree, the search left a directory with room, and a number and a sector are free; then the tree has the new directory, or, if the name was listed, the block holds a second entry of it and all is in order no more; otherwise tree and maps are as they were; no file changes |
| `FsCalls.FileSystem.EnterDirectory` | src/kernel/fs/fs.c:720-763 | The second half of it, for a name that is listed or not |
| `FsCalls.DoubledNoTree` | src/kernel/fs/fs.c:720-763 | A disk with a name entered a second time in a directory holds no tree with that directory in it |
| `FsCalls.FileSystem.Unlink` | src/kernel/fs/fs.c:643-680 | A path is unlinked if and only if it leads to a regular file with no other handle; the entry, the number and the sectors named in the inode are given up, and no other file changes |
| `FsCalls.FileSystem.Rmdir` | src/kernel/fs/fs.c:801-827 | For every absolute path: the call stops in its assertion if and only if the path leads to the root; a directory is removed if and only if its size is that of two entries; the file system is in order afterwards if and only if the path does not end in ".", no handle on the directory was open before and the search left none open; a path that ends in "." has the inode released and the tree, with the directory in it, as it was; the current directory stays in the tree if and only if it was not the one removed |
| `FsCalls.FileSystem.DirRemove` | src/kernel/fs/dir.c:120-137 | The assertion that a directory has no block after the first never fails, not even when the directory is taken out of itself |
| `FsCalls.FileSystem.Chdir` | src/kernel/fs/fs.c:903-919 | The current directory changes if and only if the path leads to a directory, and to that one |
| `FsCalls.FileSystem.Getcwd` | src/kernel/fs/fs.c:870-901 | The walk up by ".." ends; it gives a path if and only if the current directory is there still, and then the one it has in the tree; from a directory just removed there is none |
| `FsCalls.FileSystem.GetChildDirName` | src/kernel/fs/fs.c:838-868 | The name under which the parent lists the child is put before the path so far |
| `FsCalls.FileSystem.WriteFile` | src/kernel/fs/fs.c:601-610 | The bytes of the one file change as written; those of every other file and the tree do not |
| `FsCalls.FileSystem.ReadFile` | src/kernel/fs/fs.c:590-599 | The bytes of the file from the position on |
| `FsCalls.DepthSearched` | src/kernel/fs/fs.c:709-719 | The searched path is as deep as it has names, for every path; where the test is passed there is a last one, and it can be an entry's name |
| `PathSearch.SearchMeans` | src/kernel/fs/fs.c:387-442 | For any absolute path: what was found is what the components lead to, and the parent is where all but the last lead |
| `PathSearch.HandlesLeft` | src/kernel/fs/fs.c:387-442 | The searched path is a run of the components and the directories opened are those its beginnings lead to, in order; all but the parent stay open, so that a path of n components that is found leaves n - 2 handles, or none |
| `PathSearch.WashedSearch` | src/kernel/fs/fs.c:387-442 | For a washed path the search succeeds exactly when the components but the last lead to a directory that lists the last |
| `PathSearch.FindsByPath` | src/kernel/fs/fs.c:387-442 | A directory is found by a washed path if and only if that is its path |
| `MkdirDepth.DepthTestExact` | src/kernel/fs/fs.c:682-719 | In every tree the depth test of sys_mkdir lets the path through only when its last component alone is missing, if and only if: it has more slashes than components; or as many and no slash at the end, or one and the components would not fit in a tree; or fewer, and the component at that depth leads back to a place the path has been through or the ones before it would not fit. Nothing but the path is looked at |
| `PathSearch.PathDepthCnt` | src/kernel/fs/fs.c:682-693 | The loop counts the slashes of the path |
| `MkdirDepth.NeverMisled` | src/kernel/fs/fs.c:709-724 | By such a path, where the test is passed, sys_mkdir comes to no null pointer and enters the last component, which was not listed |
| `MkdirDepth.DepthAccepts` | src/kernel/fs/fs.c:682-719 | Where the last component alone is missing the test is passed if and only if the path has as many slashes as components |
| `MkdirDepth.NoLongSound` | src/kernel/fs/fs.c:193-206 | Every path without a component of more than 15 characters is of that kind |
| `MkdirDepth.LongNameCut` | src/kernel/fs/fs.c:198-206 | A longer name below the root passes the test if and only if there is no directory of its first 15 characters; those are entered, or a file of that name makes it a null pointer |
| `MkdirDepth.FitsIfFound` | src/kernel/fs/fs.c:255-291 | A path that is found goes through no more than 19 places just below each other place |
| `MkdirDepth.Build` | src/kernel/fs/fs.c:255-291 | A path that does so leads somewhere in some tree, which has no other places |
| `PathSearch.NoDirMeans` | src/kernel/fs/fs.c:387-442 | The search by a path without a slash at the end leaves no directory if and only if the components but the last few, at least one, lead to a regular file |
| `PathSearch.LongNameMisleads` | src/kernel/fs/fs.c:198-201 | With a longer component and a slash at the end the test is passed although the directory exists, and its own name would be entered in it |
| `PathWalk.OnlyPath` | src/kernel/fs/fs.c:829-901 | A path without "." and ".." that leads from the root to a directory is the one sys_getcwd puts together |
| `PathWalk.PathLeadsTo` | src/kernel/fs/fs.c:829-901 | And that path does lead there |
| `FsTheorems.ChdirThenGetcwd` | src/kernel/fs/fs.c:870-919 | sys_chdir to a washed path and then sys_getcwd gives the path back |
| `FsTheorems.GetcwdThenChdir` | src/kernel/fs/fs.c:870-919 | sys_chdir to what sys_getcwd gave stays where it was, and that path is washed |
| `FsTheorems.ClearPathLeads` | src/kernel/shell/buildin_cmd.c:44-55 | What the shell makes of a relative path is the path of the directory it leads to from the current one |
| `FsTheorems.AbsolutePathLeads` | src/kernel/shell/buildin_cmd.c:44-55 | Of an absolute path it makes the path of the directory that leads to, whatever the current directory |
| `FsTheorems.WriteThenRead` | src/kernel/fs/fs.c:590-610 | What was written is what a read from the same position gives; less is written than was asked only at the end of the 140 blocks |
| `FsTheorems.CreatedIsFound` | src/kernel/fs/fs.c:456-507 | What was created by a washed path is found by it if and only if its parent directory existed |
| `FsTheorems.StrayFile` | src/kernel/fs/fs.c:518-530 | If not, a file bearing the missing directory's name is there, the path leads nowhere, and the second search ends at that file |
| `FsTheorems.WashedNotHeld` | src/kernel/fs/fs.c:387-442 | The handles a search by a washed path leaves open are not on the directory found |
| `FsTheorems.DotNamesItself` | src/kernel/fs/fs.c:801-827 | The path of a directory with "/." at its end is found in the directory itself, and sys_rmdir takes it exactly when the size is that of two entries |
| `FsTheorems.EmptiedRemovable` | src/kernel/fs/fs.c:801-827 | A directory that unlinking or removing has emptied is found by the same path, and sys_rmdir takes it if and only if the last entry was the first after ".." and the size was that of three |
| `FsTheorems.WalkKept` | src/kernel/fs/fs.c:255-291 | Where a path led it still leads when something is added |
| `PathText.PathParse` | src/kernel/fs/fs.c:193-206 | Slashes are skipped and at most 15 characters taken; what is left is where the next call goes on |
| `PathText.WashPath` | src/kernel/shell/buildin_cmd.c:11-42 | The path put together in place is the rendering of the stack: "." skipped, ".." pops, the root absorbs ".." |
| `PathText.MakeClearAbsPath` | src/kernel/shell/buildin_cmd.c:44-55 | An absolute path is washed as it is, and a relative one after the components of the current directory; the call stops in the assertion of wash_path if and only if the path is relative and getcwd failed |
| `PathWalk.RenderIs` | src/kernel/shell/buildin_cmd.c:11-42 | The root is rendered as one slash, any other place as a slash and a name for each step |
| `PathText.ComponentsOfRender` | src/kernel/fs/fs.c:193-206 | Parsing a rendered path gives its components back |
| `PathWalk.WashTwice` | src/kernel/shell/buildin_cmd.c:11-42 | A washed path has no "." or ".." left and washing it again changes nothing |
| `PathWalk.NoStraySlash` | src/kernel/shell/buildin_cmd.c:11-42 | Nor a doubled or trailing slash |
| `PathWalk.WashKeepsPlace` | src/kernel/shell/buildin_cmd.c:11-42 | Where the unwashed components led, through directories that exist, the washed ones lead |
| `Sync.MutualExclusion` | src/kernel/thread/sync.c:44-65 | In every state of every run, under any preemption, at most one task is between an acquire and its release; it is the holder and holder_repeat_nr is its depth |
| `Sync.NoLostWakeup` | src/kernel/thread/sync.c:12-36 | The value is 0 or 1; if it is 1 and tasks wait, one that was woken has yet to look; if it is 0 some task owes the semaphore; every waiter sleeps off the ready list |
| `Sync.NoAssertFails` | src/kernel/thread/sync.c:12-65 | No assertion of the file fails, those inside thread_unblock included |
| `Sync.StepKeeps` | src/kernel/thread/sync.c:12-65 | Every statement of every task, every call, preemption, sleep, wakeup, new task and task made to end keeps the invariant of locks and lists |
| `Sync.RunKeeps` | src/kernel/thread/sync.c:12-65 | So it holds throughout every run |
| `Sync.InitialOk` | src/kernel/thread/sync.c:38-42 | From thread_init and lock_init on |
| `Sync.OneList` | src/kernel/lib/list/list.c:11-41 | A task's tag is on at most one list, and on that once |
| `Sync.WaitInTurn` | src/kernel/thread/sync.c:12-36 | Whoever finds the semaphore taken goes to the end of the waiters and sleeps; sema_up wakes the first of them and no other, to the front of the ready list; no other step touches the list |
| `Sched.ScheduleFinds` | src/kernel/thread/thread.c:194-212 | schedule always finds a task: when the list is empty the idle task is blocked |
| `Sched.NextToRun` | src/kernel/thread/thread.c:194-212 | The first of the ready list runs next; with none there the current task goes on, and if it does not run any more the idle task does; a current task that runs still goes to the end; nobody else's status or place changes |
| `Sched.IdleIsLast` | src/kernel/thread/thread.c:194-212 | With the idle task neither current nor on the list it is put to run if and only if no task at all is running or ready |
| `Sched.EventKeeps` | src/kernel/thread/thread.c:139-212 | The current task alone runs, the ready list holds each ready task once and no other, and a task that died stays dead |
| `Sched.RunKeeps` | src/kernel/thread/thread.c:139-212 | Throughout every run |
| `Sched.BoundedWaiting` | src/kernel/thread/thread.c:139-212 | A task at place k of the ready list becomes current within k + 1 + u calls of schedule, u being the number of unblocked tasks |
| `Sched.PlaceInList` | src/kernel/thread/thread.c:139-212 | Until then its place is k less the schedules plus the wakeups |
| `Sched.YieldIsTick` | src/kernel/thread/thread.c:184-192 | Yielding does what a tick does |
| `Sched.EndKeeps` | src/kernel/thread/thread.c:363-381 | A task made to end is off the list; whoever ends itself must be followed by schedule |
| `Sched.Scheduler.Schedule` | src/kernel/thread/thread.c:194-212 | The same in place: the next task, the list and every status, by cases |
| `Sched.Scheduler.ThreadBlockWithStatus` | src/kernel/thread/thread.c:155-169 | The task has that status and the first of the list runs, or else idle |
| `Sched.Scheduler.ThreadUnblock` | src/kernel/thread/thread.c:171-182 | The task is at the front of the list; neither assertion fails |
| `Sched.Scheduler.ThreadReady` | src/kernel/thread/thread.c:139-149 | The task is at the end of the list, unless it is on it |
| `Sched.Scheduler.ThreadYield` | src/kernel/thread/thread.c:184-192 | The current task goes to the end of the list and the first of it runs |
| `Sched.Scheduler.ThreadExit` | src/kernel/thread/thread.c:363-381 | The task is dead and leaves the list, the others keep their order, and schedule runs if asked |
| `WaitExit.ReapedOnce` | src/kernel/userprog/wait_exit.c:73-121 | A child that exits is reaped by at most one sys_wait, by its parent, with its own status cut to 8 bits |
| `WaitExit.EventKeeps` | src/kernel/userprog/wait_exit.c:73-121 | Every call keeps: a listed task's parent is none, init or a listed task that has not ended, and nobody but init sleeps in sys_wait while it has a child to reap |
| `WaitExit.ExitMayMissInit` | src/kernel/userprog/wait_exit.c:103-121 | An exit leaves init asleep beside a child to reap if and only if init sleeps, is not the parent, and the task has a child that already hangs |
| `WaitExit.RunKeeps` | src/kernel/userprog/wait_exit.c:73-121 | The same invariant in every run |
| `WaitExit.WaitMeans` | src/kernel/userprog/wait_exit.c:73-101 | Going by the list alone: no child if and only if no listed task has the caller as its parent; asleep, with the status of waiting and another task running, if and only if some have and none of them hangs; otherwise the first that hangs is dead and off the list, and its status is returned |
| `WaitExit.ExitMeans` | src/kernel/userprog/wait_exit.c:103-121 | Every listed child, alive or not, is init's; the status is cut to 8 bits; the task hangs, and its parent runs next if it waits, otherwise the first of the ready list or idle |
| `WaitExit.ProcessTable.SysWait` | src/kernel/userprog/wait_exit.c:73-101 | The call in place does that: -1, asleep, or the first hanging child of the list reaped |
| `WaitExit.ProcessTable.SysExit` | src/kernel/userprog/wait_exit.c:103-121 | The call in place does that: the children are init's, the task hangs, a waiting parent runs next |
| `WaitExit.ProcessTable.SysFork` | src/kernel/userprog/fork.c:62-92 | The child is the next slot, listed last, its parent the caller, its status 0, and ready after all others; nothing else changes |
| `Pool.KernelHeap.GetKernelPages` | src/kernel/memory/pool/pool.c:148-161 | The least run of clear bits of the region, 0 if and only if there is none; bitmap, table and pool agree afterwards if and only if there were frames enough |
| `Pool.KernelHeap.FreeKernelPage` | src/kernel/memory/pool/pool.c:163-183 | One page goes, if it is mapped |
| `Pool.KernelHeap.PageTableAdd` | src/kernel/memory/pool/pool.c:106-132 | All three cases: a table is there, a large page is split, a table is made |
| `Pool.KernelHeap.Palloc` | src/kernel/memory/pool/pool.c:68-76 | The least free frame, marked, or 0 if and only if none is free |
| `Pool.KernelHeap.PallocPages` | src/kernel/memory/pool/pool.c:86-96 | The least run of free frames, and those frames alone are marked |
| `Pool.AllocRunOk` | src/kernel/memory/pool/pool.c:148-161 | With frames enough, a bit of the region is set exactly when its entry is there, entries map different marked frames, and exactly the run and a table frame are taken; without, address 0 is mapped |
| `Pool.FreePageOk` | src/kernel/memory/pool/pool.c:163-183 | Freeing a mapped page gives back its one frame and keeps everything in step |
| `Pool.AllocThenFree` | src/kernel/memory/pool/pool.c:148-183 | Freeing all pages of a run, in any order, restores the pool, the bitmap and the table, once the table page is there |
| `Pool.SplitKeeps` | src/kernel/memory/pool/pool.c:112-122 | Splitting a large page keeps where every other address leads if and only if the large page mapped the region to itself |
| `Pool.MappedMeans` | src/kernel/memory/pool/pool.c:106-132 | In each of the three cases of page_table_add: one entry is filled; with a table there nothing else changes; otherwise the table is the least free frame, now marked, and its other entries map the region to itself or nothing |
| `Pool.EntryFree` | src/kernel/memory/pool/pool.c:123-130 | The assertion that the entry is not present never fails |
| `LinkedList.List.Append` | src/kernel/lib/list/list.c:11-16 | The element is last, forwards and backwards |
| `LinkedList.List.Push` | src/kernel/lib/list/list.c:18-23 | The element is first |
| `LinkedList.List.Remove` | src/kernel/lib/list/list.c:25-28 | That element is gone and its neighbours are linked |
| `LinkedList.List.PopFront` | src/kernel/lib/list/list.c:34-41 | The first element, or none of an empty list |
| `LinkedList.List.Find` | src/kernel/lib/list/list.c:43-52 | Found if and only if it is on the list |
| `Pipes.CloseKeeps` | src/kernel/fs/fs.c:564-588 | After a close each pipe still counts at least the descriptors from 3 on that refer to it, so its page goes only when none does |
| `Pipes.ForkKeeps` | src/kernel/userprog/fork.c:70-78 | A fork keeps that if and only if every inherited descriptor from 3 on is a pipe |
| `Pipes.ForkThenEnd` | src/kernel/userprog/fork.c:70-78 | A child that is forked and ends leaves a pipe's count as it was if and only if none of the parent's first three descriptors is on the pipe; otherwise the count stays too high for good |
| `Pipes.ReleasedMeans` | src/kernel/userprog/wait_exit.c:56-60 | A task that ends counts each pipe down by its descriptors from 3 on and changes no other task's |
| `Pipes.RedirectKeeps` | src/kernel/shell/pipe.c:98-107 | Redirecting one of the first three descriptors keeps the counts in order |
| `Pipes.RedirectUncounted` | src/kernel/shell/pipe.c:98-107 | Redirecting a later one to a pipe keeps them if and only if the count had one to spare or the descriptor was on that pipe |
| `Pipes.CountedMeans` | src/kernel/userprog/fork.c:70-78 | Each pipe is counted up by the number of descriptors inherited |
| `Pipes.ReleaseMeans` | src/kernel/userprog/wait_exit.c:56-60 | Entry by entry: pipes are counted down and given up with their last count, files of the task are closed, and all else, the first three descriptors included, stays |
| `Pipes.FileTable.SysPipe` | src/kernel/shell/pipe.c:17-53 | A pipe if and only if some entry from 3 on and two descriptors from 3 on are free: the least such entry, counting 2, on the first two such descriptors; otherwise no descriptor changes, and of the entries only the least free one, if there is one, which is cleared |
| `Pipes.FileTable.CloseFile` | src/kernel/fs/fs.c:564-588 | The descriptor is free; a pipe counts one less, and its page is freed exactly when the count was 1, and then no descriptor refers to the entry; a file's entry is cleared; nothing else changes |
| `Pipes.FileTable.OpenEntry` | src/kernel/fs/fs.c:540-559 | -1 if and only if all entries or all descriptors from 3 on are taken; otherwise the least free entry on the first free descriptor |
| `Pipes.FileTable.ReleaseFds` | src/kernel/userprog/wait_exit.c:56-60 | Every descriptor of the task from 3 on is closed |
| `Pipes.FileTable.ForkFds` | src/kernel/userprog/fork.c:70-78 | The child has all of the parent's descriptors, and each pipe counts as many more as refer to it |
| `Pipes.FileTable.FdRedirect` | src/kernel/shell/pipe.c:98-107 | One descriptor changes: to the number given, if that is below 3, and otherwise to what that descriptor refers to; nothing is counted |
| `Pipes.FileTable.FdInstall` | src/kernel/fs/file.c:13-23 | The first free descriptor from 3 on, or -1 |
| `IoQueue.RingIsQueue` | src/kernel/device/ioqueue.c:15-35 | The ring is a queue of at most 63 bytes; ioq_full, ioq_empty and ioq_length say so of its contents |
| `IoQueue.Conserved` | src/kernel/device/ioqueue.c:50-81 | In any order of putting and taking, what was in the ring and was put is what was taken and is in the ring |
| `IoQueue.Queue.PutByte` | src/kernel/device/ioqueue.c:58-59 | The byte is last in the queue |
| `IoQueue.Queue.GetByte` | src/kernel/device/ioqueue.c:74-75 | The byte is the first of the queue |
| `IoQueue.Queue.PipeRead` | src/kernel/shell/pipe.c:55-74 | What is there, up to the count, first in first out, without waiting |
| `IoQueue.Queue.PipeWrite` | src/kernel/shell/pipe.c:76-96 | The bytes up to the first wait are appended; the call waits if and only if the count is more than 63 less the length |
| `IoQueue.WriteInParts` | src/kernel/shell/pipe.c:55-96 | A write that waits and goes on after a read yields the same bytes in the same order |
| `IoWait.StepKeeps` | src/kernel/device/ioqueue.c:37-81 | Whoever sleeps in a waiter slot, or was woken there, holds the queue's lock; there is at most one; the task a slot names is asleep |
| `IoWait.RunKeeps` | src/kernel/device/ioqueue.c:50-81 | However many tasks put, take and wait, no byte is lost, doubled or reordered |
| `IoWait.SleepsForNothing` | src/kernel/device/ioqueue.c:50-81 | A step puts a task to sleep though the ring would let it go on if and only if the task had waited for the queue's lock, gets it, and the ring has changed meanwhile |
| `IoWait.NoneSleepsForNothing` | src/kernel/device/ioqueue.c:50-81 | In runs in which no task finds the lock taken none sleeps for nothing |
| `IoWait.SecondWriterSleeps` | src/kernel/device/ioqueue.c:50-64 | Two writers on a full ring and a reader that drains it: the second writer goes to sleep on an empty ring |
| `IoWait.SlotKept` | src/kernel/device/ioqueue.c:37-48 | No waiter is overwritten in its slot |
| `IoWait.OthersMove` | src/kernel/device/ioqueue.c:37-81 | The first that waits for the queue's lock is woken, exactly when a task woken in a slot goes on, and new waiters go to the end; whoever is woken wants what it wanted; nobody else moves |
| `IoWait.BytesMove` | src/kernel/device/ioqueue.c:50-81 | A call puts its own byte or takes the oldest one and ends exactly when the ring lets it, unless it has just waited for the lock; otherwise it has done nothing yet |
| `IoWait.NoLostWakeup` | src/kernel/device/ioqueue.c:37-81 | In every run, while the queue's lock is free and tasks wait for it, one that was woken has yet to look |
| `EdgeSort.SortEdges` | src/kernel/lib/stb_truetype.h:3479-3483 | Sorted by y0, a permutation, nothing beyond n touched |
| `EdgeSort.Quicksort` | src/kernel/lib/stb_truetype.h:3417-3477 | Entries move within the part only; the recursion is at most as deep as the logarithm of the count |
| `EdgeSort.Partition` | src/kernel/lib/stb_truetype.h:3447-3466 | Both scans stop inside the part, what is left of j is not above the pivot, what is from i on not below it, and what is between is equal to it |
| `EdgeSort.ScanUp` | src/kernel/lib/stb_truetype.h:3452-3454 | The scan without a bound stops no later than an entry that is not below the pivot |
| `EdgeSort.ScanDown` | src/kernel/lib/stb_truetype.h:3455-3457 | The scan down stops at the pivot at the latest |
| `EdgeSort.MedianToFront` | src/kernel/lib/stb_truetype.h:3424-3444 | The median of three is at the front: another of the three is not below it and one is not above it |
| `EdgeSort.InsertionSort` | src/kernel/lib/stb_truetype.h:3399-3415 | Sorted and a permutation |
| `EdgeSort.SortedIsUnique` | src/kernel/lib/stb_truetype.h:3479-3483 | Two sorted permutations have the same keys place by place |
| `Cmap4.FindGlyphIndex` | src/kernel/lib/stb_truetype.h:1516-1560 | The glyph of a codepoint is the one the linear scan of the segments gives, for every codepoint and segment count |
| `Cmap4.GlyphMeans` | src/kernel/lib/stb_truetype.h:1516-1560 | By the places of the fields: 0 before the segment's start code, the codepoint and the delta to 16 bits if the range offset is 0, and otherwise what lies that far behind the range offset, two bytes a codepoint |
| `Cmap4.Search` | src/kernel/lib/stb_truetype.h:1516-1543 | The search by halves ends at the first segment whose end code is not below the codepoint |
| `Cmap4.SearchIsLeast` | src/kernel/lib/stb_truetype.h:1524-1543 | Which is the least such segment |
| `Fat12.SetEntryReads` | scripts/mkfloppy.py:24-31 | An entry that was set reads back, cut to twelve bits, and no other entry changes |
| `Fat12.SetEntry` | scripts/mkfloppy.py:24-31 | The call in place, as that function of the table |
| `Fat12.SetChain` | scripts/mkfloppy.py:106-122 | The clusters are chained, the last one ends the chain, all other entries stay |
| `Fat12.FollowChain` | scripts/mkfloppy.py:106-122 | Following the entries from the first cluster gives the chain and ends |
| `Fat12.ChainsDisjoint` | scripts/mkfloppy.py:91-104 | Different files have no cluster in common |
| `Fat12.BuildFat` | scripts/mkfloppy.py:91-122 | The two reserved entries, one chain a file, and every other cluster free |
| `Fat12.CreateFloppy` | scripts/mkfloppy.py:57-157 | The boot sector, two equal tables, the root directory and every file at its clusters, the loader with its first word patched |
| `Fat12.PatchedSays` | scripts/mkfloppy.py:142-144 | The loader's first word is the address of the first whole sector after it, where memory holds the data area; the rest of it stays |
| `Fat12.FileReadsBack` | scripts/mkfloppy.py:91-157 | From a file's root entry, following the table to its end and cutting to the size, one reads the file; the entry of an empty file names the first cluster of the next |
| `Fat12.EntrySays` | scripts/mkfloppy.py:34-43 | A root entry gives back its name, attribute, date, first cluster and size |

## Left out

- FileIo.Volume.FileWrite: says nothing of the state after an access beyond the disk; IDE hardware, `ide.c` and its timeouts are not modelled, a read or write is an access to an array of sectors.
- FileIo.Volume.InodeOpen: the open list is a map by inode number, so that copies in memory are values and the order of the list is not modelled; the padding and list links in the 76 bytes of an inode are zero, and the handle count is unbounded.
- FsCalls.FileSystem.CreateFile: says nothing of what happens after the null pointer.
- FsCalls.FileSystem.OpenFile: nor of that, nor of what follows the second close of a handle; tables of descriptors are in `Pipes`, apart from the disk.
- FsCalls.FileSystem.Mkdir: nor of what happens after the null pointer, nor of what later calls make of a directory with a name in it twice.
- FsCalls.FileSystem.Rmdir: nor of what later calls make of a released directory that is listed still.
- FsCalls.FileSystem.Getcwd: a current directory whose inode or block was used again after it was removed is not looked at; the size of the caller's buffer, like all fixed path buffers of 512 bytes, is not modelled.
- Format.PartitionFormat: for at least 611 sectors, under which the unsigned difference of their number wraps; says nothing of the disk after an access that is not allowed; the 460 bytes of padding in the super block are a parameter.
- Pool.KernelHeap.Palloc: frames past the installed memory, which the bitmap also offers, and the marking of the kernel image at start are not modelled.
- Sync.MutualExclusion: holder_repeat_nr is unbounded, and tasks are not killed while they hold a lock.
- WaitExit.ReapedOnce: one step is a system call up to where it blocks; init and the idle task do not exit, and pids are slots of the task table.
- IoWait.RunKeeps: a task runs from one blocking point of the queue to the next, interrupts being off; the loops of pipe_read and pipe_write are in `IoQueue`.
- EdgeSort.SortEdges: keys are real numbers, so NaN and rounding are not modelled.
- Cmap4.FindGlyphIndex: for a table whose header fields and end codes are as the OpenType specification prescribes; reading past the font data gives 0.
- Fat12.CreateFloppy: names are given padded to 8 and 3, files are one list whose first is the loader, of four bytes or more, all of them fitting; reading the files and printing are left out.
- LinkedList.List.Remove: the element's place in the list is a ghost argument.
- Running out of kernel pages: every `get_kernel_pages` of the file system succeeds.
- dir_read, sys_opendir, sys_readdir, sys_stat and dir_lookup: reading only, and `dir_read` goes wrong on directories with holes.
- partition_scan, make_disk.py and mounting by name: fixed layouts.
- User address spaces, sys_execv, the pages release_prog_resource frees, and get_a_page.
- thread_kill_pid and thread_fork_with_cb: the first breaks locks and waiters, the second has no caller.
- Scheduling by ticks and priority: when a tick calls schedule is left to the run.
- The other cmap formats, the rasteriser and the rest of stb_truetype; screen, keyboard, shell editing and built-in commands but for paths.
