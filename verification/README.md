# A verified model of the kernel's storage and memory structures

This project models the parts of the kernel that keep structure in place, and proves what they promise:

* **Storage.** The ext2 usage bitmaps with their free counters, the block trees of inodes (12 direct pointers and
  three levels of pointer blocks that live on the disk they are allocated from), growing, truncating, creating and
  removing inodes, reading and writing file blocks, directories, and byte access at any offset on top of a disk or a
  file.
* **Memory.** Two-level page tables with reference-counted tables and a shared kernel half, the segments of processes
  and `fork` on top of them, and the first-fit heap with the pages behind it.
* **Processes.** The intrusive circular chain, the round-robin scheduler, and the reference counts of open files.
* **Arithmetic.** The 64-bit long division for a 32-bit machine.

Where the code updates objects in place, so does the model: classes whose methods are proved against an abstract
value (a set of free blocks, a sequence of data blocks, a map from pages to frames, a sequence of heap blocks). The
proofs about these values are lemmas over sequences, sets and maps. Source line numbers refer to the repository.

## How the files build on each other

| file | content |
|---|---|
| Arithmetic.dfy | products, quotients and powers |
| UsageBitmap.dfy | bits, counters, `alloc` and `dealloc` |
| DiskBlocks.dfy, BlockTrees.dfy, Inodes.dfy, Volumes.dfy | pointer blocks as trees; the blocks of an inode; the partition of a volume |
| FileBytes.dfy, Growth.dfy | the bytes in a list of blocks; how far a file can grow |
| Ext2.dfy, Ext2Runs.dfy | the file system's operations, and runs of them |
| BlockTransfer.dfy | byte access over blocks, for disks and for files |
| DirBlock.dfy, Directories.dfy | directory blocks, byte by byte; directories of many blocks |
| Paging.dfy, PageRanges.dfy, Segments.dfy | page tables; ranges of pages and temporary address spaces; process memory over both |
| Heap.dfy | the kernel heap |
| Chain.dfy, Scheduler.dfy, Descriptors.dfy | the chain, the scheduler, open files |
| Arith64.dfy | 64-bit division |

## Main results

* **Every used block has one owner.** After any sequence of creating, exact resizing, removing and writing, a bit of the block
  bitmap is set exactly when its block is reserved or belongs to exactly one file, once (`SetBitsAreOwnedBlocks`);
  a file that no operation names keeps its entry, its blocks, their order and their contents, every entry has the
  sectors of its data blocks, and a file that is not removed keeps its mode and its owners (`Run`). Such runs can start
  on an empty volume of any size (`Format`).
* **Growing and truncating are inverse.** Growing an empty file and truncating it restores every byte of the bitmap,
  both counters and all 15 pointers (`GrowAndTruncate`).
* **Byte access over blocks is byte access.** A read or write at any offset, on a disk or a file, equals the one on
  the plain byte sequence, for the part of the range that exists; what was written is read back; no other file
  changes; only a failed command makes it shorter, and then the answer says how much was done. With commands that
  succeed all of it is done (`Access`).
* **Growth is exact.** How many blocks a file gets is known before: the most for which its blocks and the free ones
  together are enough, pointer blocks included (`ResizeInode`, `GrownAsFarAsPossible`).
* **Two levels of page tables are one flat map.** Mapping is update, unmapping is removal, in all address spaces
  that share the table and in no others; each table is held exactly while its counter counts its present entries.
* **No page has two places.** Page tables and segments take their frames from one pool. Over any sequence of mapping new
  segments, sharing segments of any process, unmapping and forking, with ranges that end in front of page 0xC0000, no
  page is in two segments or in a page table, no segment is in two processes, none is ever copied on write, no page of
  a segment is lost, and a process that no call is for keeps what its page tables map and what its pages hold
  (`AddressSpaces.Run`). The process a call is for gets what the call says, with the permission it says. One call keeps
  all this in order if and only if it keeps away from the kernel's part of the directory, and then a frame is lost if
  and only if a page is copied (`AddressSpaces.Step`).
* **First fit.** The heap returns the lowest place where a block fits and fails only if there is none; with the
  kernel's callback every byte of every block is on a mapped page. Freeing what was just allocated restores the blocks
  and the mapped pages, if there was another block or there is no callback.
* **Nobody starves, nothing dangles.** In n calls of the scheduler on a chain of n threads, one that may run is resumed,
  whatever signals are emitted and whatever the others do in between (`Turns`); over any sequence of system calls, but
  for a pipe with one free handle, a description that a handle names is never deleted (`ProcessManager.Run`). Each call
  changes the handles and the references exactly as said, and a description is deleted with its last reference.
* **A name joins a directory.** `link` puts the entry into the first block with room for it, and into a new block if
  there is none and the directory can get one; the other entries stay in order, but for the case of directory blocks
  below (`Directories.Link`).
* **Division.** `__divmoddi4` returns quotient and remainder for all 64-bit operands; the signed forms are C's.

## Where the code does not do what one would expect

Each of these is stated exactly, as a condition a caller can check:

* Inode numbers: `alloc` counts with blocks per group and `dealloc` divides by inodes per group. A number is given
  back as the unit it stands for if and only if it lies in the first group or both divisors are equal
  (`ReleasedIsSame`).
* Shrinking: a cut is exact, every block it takes from the file becomes free and the rest stays, if and only if it
  does not end inside the first entry of a double or triple indirect tree, at any level (`ShrinkOk`, `ResizeInode`).
  Otherwise the file loses more blocks than it should, and they do not become free. Truncation to zero and to anything
  within the direct and single indirect blocks is always exact; leaving 13 + p blocks never is (`FirstLost`), p being
  the pointers in a block.
* File sizes: the size field has 32 bits, the block count too, and the request 64. For requests of less than 2^32
  blocks the field agrees with the blocks afterwards if and only if no block is lost and the size that is going to be
  granted is below 4 GiB; this size is a function of the blocks the file has and the number of free ones (`WillGrant`).
  Every request below 4 GiB is such (`ResizeInode`). For larger requests the block count wraps as well, and the
  condition is about the granted size less whole rounds of the count (`CountWraps`).
* Directory blocks: when the dead records at the beginning of a block have the room for a new one, it is put behind
  what the first of them needs, with the size of all that were looked at. With S the end of these and e the end of the
  new record, S plus what the first needs, the records still fill the block if and only if e is in the block and records
  fill what is behind e; the entries are the old ones and the new one if and only if, besides, the entries behind e and
  behind S are the same (`FrontAdded`, `Link`). It fails on every block that `link` itself has just made for a directory
  once that one entry is removed again: the next record reaches past the end of the block (`OneDeadRecord`,
  `LinkAfterUnlink`).
* Page tables: writing a page entry is invisible to the other address spaces if and only if it is a user entry, or
  nobody else exists, or nothing changes (`Isolation`). Destroying an address space loses no frame if and only if
  all its counters are zero (`Destroy`).
* Page tables of others: a user space counts the pages that it maps from directory entry 768 on itself, and the kernel
  those below. After mapping, all tables and counters are in order if and only if the page is in the part that the
  address space owns; after unmapping, if and only if it is, or the page was not mapped (`MapPage`, `UnmapPage`). A
  user space that maps a page of a kernel table and unmaps it again has the table freed while the kernel's directory
  still shows it (`MapThenUnmap`).
* Ranges: where a program is loaded the address is not compared with the kernel's part
  (kernel/src/proc/elf.cpp:123-144). After a range is mapped, all is in order if and only if no page of it is mapped
  from page 0xC0000 on, and none is unmapped there that the kernel maps; for as many pages as the range has, if and
  only if it is empty or ends at or in front of that page (`ShowRange`, `FitsExactly`). One page at 0xC0400 is enough
  (`OneForeignPage`): it appears in every other address space, if the kernel has a table there (`SeenByAll`).
* Copying a segment: its pages are mapped in a temporary address space, one behind the other with those of the copy,
  which is in order if and only if twice as many pages fit between pages 0x100 and 0xC0000 (`Borrow`). The space is
  destroyed with its tables, so that frames are lost if and only if the segment has a page (`CreateCopy`). `fork` copies
  every segment, and creates two address spaces of which one belongs to no process (`Fork`).
* Pipes: the handles stay safe if and only if not exactly one handle is free; with one free, the first end of the
  pipe stays open while the pipe is deleted (`SysPipe`).
* Opening: a file that is in the table already takes two references for one handle, any other file one (`SysOpen`);
  so references cover the handles, but need not be equal to them. Opening a file and closing that handle deletes its
  description if and only if the file was not in the table; otherwise one reference stays for good (`OpenAndClose`).
* Sectors: an entry counts those of the data blocks only, in 32 bits, which is right if and only if the blocks are
  together smaller than 2^41 bytes (`SectorsAgree`); so they are after every exact resizing below 4 GiB (`ResizeInode`).
* Flags: a new handle has the permissions that were asked for if and only if its slot is new or the handle that was
  closed there had the same ones (`OpenHandle`, kernel/src/proc/process.cpp:191-199).
* Moving a heap block: `realloc` takes the old block out before it looks for a place, so that the block is gone when
  there is none, and it cannot move the first block, for which it writes through a null pointer (`Realloc`).
* Freeing the only block of a heap with a callback follows a null pointer (`Free`, `MallocThenFree`).
* Duplicating: an open handle duplicated onto itself is closed (`DuplicateHandle`).
* Signed division: the one quotient that does not fit wraps around (`DivDi3`).

## Model

| member | source | states |
|---|---|---|
| `UsageBitmaps.UsageBitmap.Alloc` | kernel/src/fs/ext2.cpp:599-656 | takes the lowest free unit and lowers both counters by one; its byte is the only one that changes, by 2 to the place of the bit; answers 0 exactly when no unit is free |
| `UsageBitmaps.UsageBitmap.Dealloc` | kernel/src/fs/ext2.cpp:658-684 | if the bit of the unit is set, its byte, and no other, loses 2 to the place of the bit, and the counters rise; otherwise nothing changes |
| `UsageBitmaps.UsageBitmap.FindClear` | kernel/src/fs/ext2.cpp:619-639 | finds the lowest clear bit of all groups by skipping full bytes, if there is one |
| `UsageBitmaps.BitIsDigit` | kernel/src/fs/ext2.cpp:628-641 | bit k of a byte is its binary digit of weight 2^k |
| `UsageBitmaps.Geometry.ReleasedIsSame` | kernel/src/fs/ext2.cpp:643-668 | dealloc frees the unit that alloc numbered if and only if it is in group 0 or both divisors are equal |
| `UsageBitmaps.UnitRoundTrip` | kernel/src/fs/ext2.cpp:635-643 | number to bit position and back is the identity, over groups that do not fill their bitmap block |
| `UsageBitmaps.PosRoundTrip` | kernel/src/fs/ext2.cpp:662-670 | bit position to number and back is the identity for positions inside a group |
| `UsageBitmaps.PosMonotone` | kernel/src/fs/ext2.cpp:635-643 | lower bits are lower numbers, so the first clear bit is the lowest free unit |
| `UsageBitmaps.DecodesOnce` | kernel/src/fs/ext2.cpp:599-684 | the bitmap bytes are determined by the set of clear positions |
| `UsageBitmaps.UsageBitmap.SameFreeSameState` | kernel/src/fs/ext2.cpp:599-684 | two states with the same free units have the same bytes and the same counters |
| `DiskBlocks.PointerBlockRoundTrip` | kernel/src/fs/ext2.cpp:510-523 | a table of 32-bit pointers written to a block as bytes is read back unchanged |
| `BlockTrees.TreeFrame` | kernel/src/fs/ext2.cpp:693-791 | a tree depends on its pointer blocks only: writing elsewhere leaves its shape, blocks and order |
| `BlockTrees.Capacity` | kernel/src/fs/ext2.cpp:525-564 | a tree of height h holds at most p^h data blocks, and exactly so many when it is full |
| `BlockTrees.DataAt` | kernel/src/fs/ext2.cpp:541-563 | data block i of a tree is found by dividing i by the capacity of the children, 0 behind the last one |
| `Ext2.Ext2FileSystem.AllocPtrBlk` | kernel/src/fs/ext2.cpp:693-741 | grows a tree at its end, by all blocks that were asked for unless the volume or the tree is full, never by more; each new data block was free before, existing data blocks stay in place and pointer blocks stay pointer blocks |
| `Ext2.Ext2FileSystem.DeallocPtrBlk` | kernel/src/fs/ext2.cpp:743-791 | frees the last blocks of a tree and every pointer block left empty, each once, and answers rightly whether the root may go, if and only if all go or the rest is cuttable |
| `BlockTrees.CuttableAt` | kernel/src/fs/ext2.cpp:761-790 | a cut between entries is exact; one inside an entry is exactly when this is not the first entry and the cut inside it is exact |
| `Ext2.Ext2FileSystem.AllocInodeBlocks` | kernel/src/fs/ext2.cpp:793-846 | the file keeps its blocks and each further data block was free before; fewer than asked only if the volume is full or the capacity 12+p+p^2+p^3 is reached |
| `Ext2.Ext2FileSystem.DeallocInodeBlocks` | kernel/src/fs/ext2.cpp:848-905 | the file loses its last blocks and the pointer blocks they needed; these are free afterwards, each once, and nothing else, if and only if the place of the cut is right |
| `Inodes.CutPlace` | kernel/src/fs/ext2.cpp:848-905 | where that is, by the number of blocks that remain |
| `Inodes.LeakedBlock` | kernel/src/fs/ext2.cpp:848-905 | any other cut leaves a block that is neither free nor in the file |
| `Inodes.FirstLost` | kernel/src/fs/ext2.cpp:743-905 | the first cut that loses blocks |
| `Ext2.Ext2FileSystem.GetInodeBlknum` | kernel/src/fs/ext2.cpp:525-564 | block i of the file through direct, single, double and triple pointers, 0 behind the last one |
| `Inodes.FileNth` | kernel/src/fs/ext2.cpp:525-564 | block i of an inode lies in the root whose range of indices contains i |
| `Inodes.TailOfFile` | kernel/src/fs/ext2.cpp:848-905 | in a file without gaps the last blocks are those of its highest roots |
| `Inodes.FullStays` | kernel/src/fs/ext2.cpp:693-741 | growing never reorders: full roots stay full and as they are |
| `Inodes.DataBlocksDistinct` | kernel/src/fs/ext2.cpp:566-587 | the data blocks of a file are pairwise different, nonzero and on the disk |
| `Inodes.EmptyFile` | kernel/src/fs/ext2.cpp:848-905 | a file without data blocks has no pointer blocks left either and all 15 pointers are zero |
| `Ext2.Ext2FileSystem.ResizeInode` | kernel/src/fs/ext2.cpp:907-931 | the blocks for the size, or as many as the old blocks and the free ones are enough for, all of them exactly when these cover what the size needs; kept blocks keep place and contents and new ones were free before; other files are untouched, whether the cut is exact or not; the size agrees with the blocks if and only if the cut is exact and the size to be granted, known before the call, fits into 32 bits, and always for a growth below 4 GiB; the sectors are those of the data blocks as long as they fit into 32 bits, and so after every exact resizing below 4 GiB; mode, owners and links stay |
| `Ext2.Ext2FileSystem.SectorsAgree` | kernel/src/fs/ext2.cpp:928-928 | the 32-bit count of sectors of 512 bytes stands for the blocks if and only if these are together smaller than 2^41 bytes |
| `Growth.FileInBetween` | kernel/src/fs/ext2.cpp:693-846 | a file has the pointer blocks that its data blocks need, and fewer than one more data block would need |
| `Growth.GrownAsFarAsPossible` | kernel/src/fs/ext2.cpp:793-931 | growth comes as far as the file's blocks and the free ones reach together, and to the request exactly when they cover it |
| `Volumes.CountWraps` | kernel/src/fs/ext2.cpp:908-928 | when the 32-bit block count and the 32-bit size field agree, for every 64-bit size |
| `Volumes.SizeFieldWraps` | kernel/src/fs/ext2.cpp:927-928 | the 32-bit field stands for the same number of blocks if and only if the size is below 2^32 |
| `Ext2.Ext2FileSystem.CreateInode` | kernel/src/fs/ext2.cpp:933-961 | the lowest free inode number gets an empty entry; answers 0 exactly when none is free |
| `Ext2.Ext2FileSystem.RemoveInode` | kernel/src/fs/ext2.cpp:963-971 | the inode number and all blocks of the file become free, and no others |
| `Volumes.PartitionKept` | kernel/src/fs/ext2.cpp:793-905 | changing one file's blocks within free blocks and its own keeps the partition of the volume |
| `Volumes.OtherFile` | kernel/src/fs/ext2.cpp:693-791 | writing one file's pointer blocks, or free blocks, leaves the blocks and contents of another file |
| `Ext2Runs.Step` | kernel/src/fs/ext2.cpp:566-971 | one operation does what it is for to the file it names (a new empty entry, the blocks and the size it can be granted, the number and all blocks given back, bytes spliced in), keeps the partition of all blocks and every file it does not name, and of every file that stays mode, owners and links |
| `Ext2Runs.Run` | kernel/src/fs/ext2.cpp:566-971 | after every sequence of operations each block has one owner, sizes and sectors agree with the blocks, a file that none names is as before, and one that none removes keeps its attributes |
| `Ext2Runs.SetBitsAreOwnedBlocks` | kernel/src/fs/ext2.cpp:599-684 | a binary digit of the bitmap is 1 exactly when its block is reserved or belongs to exactly one file, exactly once |
| `Ext2Runs.GrowAndTruncate` | kernel/src/fs/ext2.cpp:907-931 | growing from empty and truncating restores bitmap bytes, both counters and all pointers |
| `Ext2.Ext2FileSystem.ReadInodeBlocks` | kernel/src/fs/ext2.cpp:566-592 | the bytes of the requested blocks, as many as the file has |
| `Ext2.Ext2FileSystem.WriteInodeBlocks` | kernel/src/fs/ext2.cpp:566-597 | the file's bytes with these blocks spliced in, as many as the file has; all other files keep theirs |
| `FileBytes.BytesSlice` | kernel/src/fs/ext2.cpp:566-587 | blocks from..to of a file are its bytes from..to times the block size |
| `FileBytes.OverwrittenBytes` | kernel/src/fs/ext2.cpp:566-587 | overwriting some blocks of a file splices their bytes into the file's bytes |
| `BlockTransfers.IDEDevice.ReadBlocks` | kernel/src/drv/ide.cpp:100-110 | the sectors that exist, or none exactly if the command fails; no sectors to move, no command |
| `BlockTransfers.IDEDevice.WriteBlocks` | kernel/src/drv/ide.cpp:112-122 | exactly the sectors that exist are replaced, or none exactly if the command fails |
| `BlockTransfers.GrowFile` | kernel/src/fs/ext2.cpp:1078-1080 | the old bytes stay in front; the answer is the new size, which is the one known before, below the request only when nothing more can be had |
| `BlockTransfers.BlockFile.CheckBlockSizeChanged` | kernel/src/fd/block_transfer.hpp:134-146 | afterwards the temporary block has the size of the device's blocks, and the device is as before |
| `BlockTransfers.BlockFile.AccessBlockSection` | kernel/src/fd/block_transfer.hpp:112-124 | exactly these bytes of one block are read or replaced, or nothing is |
| `BlockTransfers.BlockFile.AccessBlocks` | kernel/src/fd/block_transfer.hpp:126-132 | the whole blocks that were moved are the ones it counts |
| `BlockTransfers.BlockFile.Transfer` | kernel/src/fd/block_transfer.hpp:62-110 | head, aligned middle and tail together move one range of bytes; the count is the prefix done, short only after a failed command |
| `BlockTransfers.BlockFile.Clip` | kernel/src/fd/block_transfer.hpp:51-60 | the part of the range inside the file, which a write first makes as long as it can |
| `BlockTransfers.BlockFile.SmallFits` | kernel/src/fd/block_transfer.hpp:51-60 | a write that ends below 4 GiB is granted a size below 4 GiB |
| `BlockTransfers.BlockFile.Access` | kernel/src/fd/block_transfer.hpp:47-110 | equals access to the plain bytes: what is read, what is written, every other byte and file unchanged, the new size, the count; the whole range if all commands succeed, and each failure counted is a command that failed |
| `BlockTransfers.BlockFile.WriteAndReadBack` | kernel/src/fd/block_transfer.hpp:38-44 | bytes written at an offset are read back, all that fit if all commands succeed |
| `BlockTransfers.AllReachable` | kernel/src/fs/ext2.cpp:525-564 | three levels of pointer blocks reach every block of a file below 4 GiB |
| `DirBlocks.FindSlack` | kernel/src/fs/ext2.cpp:451-471 | the first live record with enough slack and dead records behind it; nothing if and only if there is none |
| `DirBlocks.AllocRecord` | kernel/src/fs/ext2.cpp:451-482 | cuts a record off there, large enough for the name, or lays one over the dead records in front, with the size of all it passed |
| `DirBlocks.FrontAdded` | kernel/src/fs/ext2.cpp:451-482 | when a record laid over the dead records in front leaves the block filled with records, and when it leaves the entries, each as an if-and-only-if |
| `DirBlocks.OneDeadRecord` | kernel/src/fs/ext2.cpp:451-482 | in a block that is one dead record the new one reaches past the end |
| `DirBlocks.LinkAfterUnlink` | kernel/src/fs/ext2.cpp:139-248 | linking one name into a new block, removing it and linking another leaves such a block |
| `DirBlocks.RecordAdded` | kernel/src/fs/ext2.cpp:140-150 | the filled-in record adds one name with its inode and type, loses none, and the records still fill the block |
| `DirBlocks.Link` | kernel/src/fs/ext2.cpp:139-156 | unchanged if and only if no place has the room; behind a live record the new entry joins the others; over dead records in front the records and the entries are kept exactly under the conditions of FrontAdded |
| `DirBlocks.LinkFirst` | kernel/src/fs/ext2.cpp:182-192 | a new block holds one record that fills it, byte by byte |
| `DirBlocks.Unlink` | kernel/src/fs/ext2.cpp:238-248 | the entry is gone, all others stay in order, and the records still fill the block |
| `Directories.Link` | kernel/src/fs/ext2.cpp:113-213 | the first block with room for the name gets the record, else a new block if the directory can get one more with the pointer blocks for it, else nothing changes; the entry joins the others in order and other files are untouched |
| `Directories.LinkInBlocks` | kernel/src/fs/ext2.cpp:139-173 | the loop stops at the first block with room, and all blocks in front of it have none |
| `Directories.LinkInNewBlock` | kernel/src/fs/ext2.cpp:175-213 | the new block was free before, holds the one entry and is the last one; all others keep their bytes |
| `Directories.PutInside` | kernel/src/fs/ext2.cpp:139-173 | what a record put into one block means for the entries of all blocks, with the conditions for dead records in front |
| `DirBlocks.SameRecords` | kernel/src/fs/ext2.hpp:78-97 | records are read from their own bytes only |
| `DirBlocks.RecordLayout` | kernel/src/fs/ext2.hpp:78-83 | at which bytes of a record its inode number, size, name length, type and name lie, low bytes first |
| `PageTables.Packed` | kernel/arch/i386/src/paging.cpp:122-127 | 20 bits of a frame number and the flags come out of an entry as they went in; a directory entry allows programs exactly when it is not the kernel's |
| `PageTables.VirtualMemoryManager.FlagsOfDirectories` | kernel/arch/i386/src/paging.cpp:226-237 | in every state a directory entry allows writing, and programs exactly in front of the kernel's part |
| `PageTables.VirtualMemoryManager.constructor` | kernel/arch/i386/src/paging.cpp:86-95 | the kernel's directory with its pinned last table maps no page |
| `PageTables.VirtualMemoryManager.MapPage` | kernel/arch/i386/src/paging.cpp:107-129 | the flat map changes at this page, where the table is shared, and nowhere else; fails exactly when a table is needed and no frame is free; all is in order afterwards if and only if the page is in the part that the address space owns, and what happens in the other part is stated case by case; from any state, a table is retained, released again if the page was there, and the entry written |
| `PageTables.VirtualMemoryManager.UnmapPage` | kernel/arch/i386/src/paging.cpp:131-146 | the page is removed from the flat map, and a table without pages is given back; all is in order afterwards if and only if the page is in the own part or was not mapped |
| `PageTables.VirtualMemoryManager.MapThenUnmap` | kernel/arch/i386/src/paging.cpp:107-146 | a user space that maps and unmaps a page of a kernel table frees the table that the kernel still shows |
| `PageTables.ForeignTable` | kernel/arch/i386/src/paging.cpp:199-241 | a table that comes to stand in some directories with one page changes what these map there, and nothing else |
| `PageTables.VirtualMemoryManager.VirPaddrToPhy` | kernel/arch/i386/src/paging.cpp:148-162 | the frame the flat map gives, 0 if none |
| `PageTables.VirtualMemoryManager.RetainPageTab` | kernel/arch/i386/src/paging.cpp:190-211 | in the own part one count ahead of the present entries, with a table there, and no lookup changes; in the other part a count of one, and a new table if there was none; from any state, one more count, or a count of one with a new table |
| `PageTables.VirtualMemoryManager.ReleasePageTab` | kernel/arch/i386/src/paging.cpp:213-224 | from any state the 16-bit count goes down, below zero to 0xffff, and the table goes exactly at zero; one count ahead before, counters agree again and no lookup changes |
| `PageTables.VirtualMemoryManager.WriteDirEntry` | kernel/arch/i386/src/paging.cpp:226-260 | a directory entry goes to the directory, and for the kernel to all directories |
| `PageTables.TableInstalled` | kernel/arch/i386/src/paging.cpp:190-241 | an unused frame becomes a table without two tables ever sharing a frame |
| `PageTables.PageWritten` | kernel/arch/i386/src/paging.cpp:116-128 | writing one entry changes one page of the address spaces that show the table |
| `PageTables.Isolation` | kernel/arch/i386/src/paging.cpp:107-129 | when writing an entry is invisible to all others, as an if-and-only-if |
| `PageTables.CountAfter` | kernel/arch/i386/src/paging.cpp:190-224 | the number of present entries after one entry is set |
| `PageTables.VirtualMemoryManager.SharedKernelHalf` | kernel/arch/i386/src/paging.cpp:232-237 | in every state all address spaces have the same kernel entries, and so the same kernel pages |
| `PageTables.VirtualMemoryManager.HeldWhileCounted` | kernel/arch/i386/src/paging.cpp:190-224 | in every state a frame holds a table exactly while its counter is positive, which is the number of its present entries |
| `PageTables.VirtualMemoryManager.Create` | kernel/arch/i386/src/paging.cpp:86-100 | a new address space has the kernel's pages and no others |
| `PageTables.VirtualMemoryManager.Destroy` | kernel/src/mem/paging.cpp:47-51 | nobody else sees a difference; frames are lost exactly if some counter is not zero |
| `PageRanges.ShowRange` | kernel/src/proc/memory.cpp:161-175 | the range shows the pages in order, behind them nothing, and no other page of any address space changes; all is in order afterwards if and only if none of the kernel's part was mapped or taken away |
| `PageRanges.FitsExactly` | kernel/src/proc/memory.cpp:161-175 | for as many pages as the range has: the range is empty or ends at or in front of page 0xC0000 |
| `PageRanges.SetLoose` | kernel/arch/i386/src/paging.cpp:107-129 | a page mapped in the kernel's part leaves the entry counted, or given away, and no other entry of any directory changed; tables never become directories |
| `PageRanges.AstrayNotValid` | kernel/arch/i386/src/paging.cpp:190-224 | an address space that counts an entry of the kernel's part, or has not the kernel's there, is not in order |
| `PageRanges.ShowForeign` | kernel/arch/i386/src/paging.cpp:107-129 | mapping a page of the kernel's part leads astray, and mapping more never back |
| `PageRanges.HideForeign` | kernel/arch/i386/src/paging.cpp:131-146 | unmapping a page of the kernel's part leads astray if and only if it was mapped, and never back |
| `PageRanges.SeenByAll` | kernel/arch/i386/src/paging.cpp:107-129 | a page that one address space maps in a kernel table appears in every other one |
| `PageRanges.NoPagesNoTables` | kernel/arch/i386/src/paging.cpp:190-224 | an address space has no table of its own exactly when it maps no page of its own |
| `PageRanges.NewSpace` | kernel/src/mem/paging.cpp:39-45 | a new address space maps no page of its own, no other one changes, and no frame is lost |
| `PageRanges.DropSpace` | kernel/src/mem/paging.cpp:47-51 | the others are as before; no frame is lost if and only if the address space maps no page of its own |
| `PageRanges.Borrow` | kernel/src/proc/memory.cpp:117-132 | the temporary address space shows the source and behind it the copy; in order if and only if both fit in front of page 0xC0000 |
| `Arith64.ClzDi2` | kernel/src/arith64.c:112-121 | the leading zero bits of every nonzero number |
| `Arith64.AndHigh` | kernel/src/arith64.c:115-120 | a masked test finds out whether a number is below a power of two |
| `Arith64.Start` | kernel/src/arith64.c:176-178 | all shift amounts lie between 1 and 63, and the registers hold the first state |
| `Arith64.Compared` | kernel/src/arith64.c:184-184 | the sign of the wrapped difference decides the comparison although it may overflow |
| `Arith64.Pass` | kernel/src/arith64.c:180-186 | one round of the loop moves one bit and keeps a = q*b + r with r < b |
| `Arith64.LongDivide` | kernel/src/arith64.c:175-188 | quotient and remainder of the long division |
| `Arith64.DivModDi4` | kernel/src/arith64.c:149-189 | a = q*b + r and r < b for all 64-bit a and b > 0; a trap for b = 0 |
| `Arith64.DivDi3` | kernel/src/arith64.c:192-196 | the truncated quotient of C for all operands but the overflowing one, which wraps around |
| `Arith64.ModDi3` | kernel/src/arith64.c:225-230 | the remainder that belongs to the truncated quotient, for all operands |
| `Arith64.TruncatedOnce` | kernel/src/arith64.c:192-230 | there is one truncated quotient and one remainder |
| `Arith64.SignsDiffer` | kernel/src/arith64.c:195-195 | the exclusive or of two numbers is negative exactly when their signs differ |
| `Heaps.AlignCeil` | common/common.hpp:69-75 | the least aligned number that is not smaller |
| `Heaps.BlockAfter` | kernel/src/mem/heap.cpp:3-5 | the least address whose data is aligned |
| `Heaps.FirstOfGap` | kernel/src/mem/heap.cpp:72-90 | when the earlier gaps are too small no place is in front of the first of this gap |
| `Heaps.LCHeap.Malloc` | kernel/src/mem/heap.cpp:65-106 | the lowest aligned place where the block disturbs no other; without a callback null exactly when there is none below the limit |
| `Heaps.LCHeap.FindPlace` | kernel/src/mem/heap.cpp:67-90 | the walk stops at the first gap with room |
| `Heaps.LCHeap.PrevBlock` | kernel/src/mem/heap.cpp:161-175 | the block in front, although the walk ends early |
| `Heaps.LCHeap.Free` | kernel/src/mem/heap.cpp:136-154 | exactly the block with this data goes, or nothing if there is none; the kernel's limit is the end of the last block; a null pointer is followed if and only if the only block of a heap with a callback goes |
| `Heaps.LCHeap.Realloc` | kernel/src/mem/heap.cpp:108-134 | the block takes its new size in place if and only if it does not reach what follows; otherwise it goes, and a block of the new size gets the lowest place that is free then, or there is none |
| `Heaps.LCHeap.Count` | kernel/src/mem/heap.cpp:32-54 | both walks agree with the list and with total_size |
| `Heaps.LinkedIn` | kernel/src/mem/heap.cpp:74-81 | linking a header in between gives the list with one more block |
| `Heaps.LCHeap.MallocThenFree` | kernel/src/mem/heap.cpp:65-154 | freeing what was just allocated restores the blocks, their total size and the mapped pages, if and only if there is no callback or there was another block |
| `Heaps.MemoryManager.ResizeHeap` | kernel/src/mem/manager.cpp:154-180 | the mapped pages are exactly those with a byte from the base up to the limit, growing and shrinking |
| `Heaps.LCHeap.Kernel` | kernel/src/mem/manager.cpp:186-195 | the kernel's heap starts empty, with its limit at its base |
| `Heaps.LCHeap.BlocksAreMapped` | kernel/src/mem/manager.cpp:154-195 | every byte of every block and header is on a mapped page |
| `Chains.DLChain.Append` | common/chain.hpp:22-35 | the sequence with the item at the end, links both ways |
| `Chains.DLChain.Prepend` | common/chain.hpp:37-41 | the sequence with the item in front |
| `Chains.DLChain.InsertAfter` | common/chain.hpp:43-49 | the sequence with the item behind another one |
| `Chains.DLChain.InsertBefore` | common/chain.hpp:51-55 | the sequence with the item in front of another one, also at the head |
| `Chains.DLChain.Has` | common/chain.hpp:67-80 | true exactly for the items of a nonempty chain |
| `Chains.DLChain.Remove` | common/chain.hpp:82-96 | the sequence without the item, or unchanged if it is not in it |
| `Chains.DLChain.Visit` | common/chain.hpp:106-152 | iteration visits each item once, in order, and stops |
| `Scheduling.ThreadScheduler.Run` | kernel/src/proc/thread.cpp:125-147 | resumes the first thread around the circle behind the current one that runs and awaits no signal; idles exactly when there is none |
| `Scheduling.FirstBehindOnce` | kernel/src/proc/thread.cpp:134-138 | there is one such thread at most |
| `Scheduling.Fair` | kernel/src/proc/thread.cpp:125-147 | the argument behind Turns: among n places taken in such turns, one that stays runnable comes up within n of them |
| `Scheduling.ThreadScheduler.Turns` | kernel/src/proc/thread.cpp:125-184 | in n calls of the scheduler on a chain of n threads, with any emits and waits of others in between, a thread that may run is resumed |
| `Scheduling.ThreadScheduler.Emit` | kernel/src/proc/thread.cpp:149-152 | exactly the threads that await the signal stop waiting |
| `Scheduling.ThreadScheduler.Exit` | kernel/src/proc/thread.cpp:117-123 | the thread leaves the chain, and is not the current one any more |
| `Scheduling.ThreadScheduler.HandleYield` | kernel/src/proc/thread.cpp:154-184 | what each kind of yield leads to, up to the thread that is resumed, which runs and awaits nothing; a thread that exits is taken out of the chain |
| `Descriptors.FileDescriptionManager.FetchInodeFd` | kernel/src/fd/manager.cpp:9-23 | the description of a file that is open, with one more reference and no other change |
| `Descriptors.FileDescriptionManager.Close` | kernel/src/fd/manager.cpp:55-89 | one reference less; deleted exactly with the last one |
| `Descriptors.Process.OpenHandle` | kernel/src/proc/process.cpp:189-211 | the first free slot names the description; fails exactly when all slots are taken; the permissions are those asked for exactly when the slot is new or had them already; no other handle changes |
| `Descriptors.Process.CloseHandle` | kernel/src/proc/process.cpp:213-223 | the handle is free; its description, and no other, has one reference less, and is deleted exactly with the last one; references still cover all names |
| `Descriptors.Process.OpenAndClose` | kernel/src/proc/syscall.cpp:53-102 | a file that was not in the table leaves no description when its handle is closed again; one that was keeps one reference more |
| `Descriptors.Process.DuplicateHandle` | kernel/src/proc/process.cpp:225-249 | the copy is equal to the source, but for a handle copied onto itself, which is closed; it takes the first free slot where none is named or the one named is free, and fails with EMFILE exactly when none is named and all are taken; references move from what the target named to what the source names; no other handle changes |
| `Descriptors.Process.SysOpen` | kernel/src/proc/syscall.cpp:53-89 | the first free slot names the file, with the description it has in the table already, if there is one, and two references then; or every slot is taken and the reference is given back; its permissions as for OpenHandle; no other handle changes |
| `Descriptors.Process.SysPipe` | kernel/src/proc/syscall.cpp:137-161 | the first two free slots are the end to read and the end to write of one new description; safe afterwards if and only if not exactly one handle was free |
| `Descriptors.Process.CloseAll` | kernel/src/proc/process.cpp:157-161 | an ended process names nothing; each description loses as many references as it had names there, and exactly those without others are deleted |
| `Descriptors.Process.Fork` | kernel/src/proc/process.cpp:251-276 | the child's open handles are the parent's, and each name of the parent counts once more |
| `Descriptors.NoneDangles` | kernel/src/fd/manager.cpp:55-89 | a description that has a name and is covered is in the table and was not deleted |
| `Descriptors.ProcessManager.Step` | kernel/src/proc/process.cpp:157-276 | any call of any process changes its handles and all references as that call should, leaves the handles of the other processes, and keeps all of them safe, a pipe if and only if not exactly one handle is free |
| `Descriptors.ProcessManager.Run` | kernel/src/proc/process.cpp:157-276 | so does any sequence of such calls of any processes |
| `Descriptors.ProcessManager.Start` | kernel/src/proc/manager.cpp:27-34 | a process without open handles joins the others, or is the first |
| `Descriptors.ProcessManager.NothingDangles` | kernel/src/fd/manager.cpp:55-89 | every open handle of every process names a description that was not deleted |
| `Segments.MemorySegment.Create` | kernel/src/proc/memory.cpp:8-28 | as many pages as asked for, none of which anybody had, or none at all, exactly when fewer frames are free; no frame is lost |
| `Segments.MemorySegment.CreateCopy` | kernel/src/proc/memory.cpp:30-34 | fresh pages with the same contents; every address space is as before; frames are lost if and only if the source has a page; it stops only without enough frames, or when both do not fit in front of page 0xC0000 |
| `Segments.MemorySegment.CopyThrough` | kernel/src/proc/memory.cpp:121-140 | copying between the addresses where the temporary space shows the pages copies the pages |
| `Segments.MemorySegment.ProcessMap` | kernel/src/proc/memory.cpp:52-68 | a segment gets its one place, and a second place gets a copy; in order afterwards if and only if the range fits |
| `Segments.ProcessSegment.UpdateMapping` | kernel/src/proc/memory.cpp:161-175 | if and only if the range fits, the page tables are in order, the range shows the pages, and nothing else has changed |
| `Segments.ProcessMemory.NeverCopiedOnWrite` | kernel/src/proc/memory.cpp:41-50 | a mapped segment is never copied on write |
| `Segments.ProcessMemory.MapSegment` | kernel/src/proc/memory.cpp:223-233 | refused exactly when the range overlaps; otherwise, if and only if the range fits, the process is in order, the segment, or a copy on fresh pages if it has a place already, is shown there, and all else is unchanged; frames are lost if and only if a page is copied |
| `Segments.ProcessMemory.MapNew` | kernel/src/proc/elf.cpp:137-148 | a new segment is shown on fresh pages in order, writable exactly as asked, shared exactly as asked; or given back if the range is not free, or not made without enough frames; in order if and only if one of these is so or the range fits |
| `Segments.ProcessMemory.UnmapSegment` | kernel/src/proc/memory.cpp:235-245 | the range is free, the pages of the segment and no others are given back, and no frame is lost |
| `Segments.ProcessMemory.Fork` | kernel/src/proc/memory.cpp:261-273 | same ranges and contents on pages nobody had; the parent is as before; one of two new address spaces maps nothing and has no process; frames are lost if and only if the parent has a page |
| `Segments.ProcessMemory.UnmapAll` | kernel/src/proc/memory.cpp:247-250 | nothing is mapped, all pages of the process and no others are given back, and no frame is lost |
| `Segments.AddressSpaces.Step` | kernel/src/proc/memory.cpp:8-273 | all processes and page tables are in order after a call if and only if it keeps away from the kernel's part; then segments, places and pages of all processes are apart, no page is lost, a frame is lost if and only if a page is copied, and the other processes keep address spaces and contents; its process has what the call is for: the new segment on pages shown with the permission asked for, the shared one or its copy, the range unmapped, or a child with the same ranges |
| `Segments.AddressSpaces.Run` | kernel/src/proc/memory.cpp:8-273 | all this over every sequence of calls up to the first range that does not end in front of page 0xC0000; a process that none of them is for is as before |
| `Segments.AddressSpaces.OneForeignPage` | kernel/src/proc/elf.cpp:123-144 | a segment of one page at 0xC0400 does not keep away |
| `Segments.AddressSpaces.ShownAsMapped` | kernel/src/proc/memory.cpp:161-175 | the page tables of every process map exactly what its map says |
| `Segments.AddressSpaces.NothingShared` | kernel/src/proc/memory.cpp:52-68 | in every state two places show different segments without a page in common |
| `Segments.AddressSpaces.NeverCopiedOnWrite` | kernel/src/proc/memory.cpp:41-50 | in every state no segment of any process is copied on write |
| `Segments.StillOwned` | kernel/src/proc/memory.cpp:117-273 | a change of one process's pages leaves each page with one owner and no page without |

## Left out

* Disks of the file system do not fail; only IDE commands under byte access may, and a command that fails moves
  nothing. Frames for the pages of the heap are always found.
- DeallocInodeBlocks: requires that no more blocks are asked for than the file has; otherwise the loop at
  kernel/src/fs/ext2.cpp:891-902 would not end, since its 8-bit index never becomes negative.
- Access: a write to a file is granted a size below 4 GiB, which is known before the call (`Fits`) and so for every
  range that ends below 4 GiB; otherwise the size field wraps and the blocks behind it are out of reach. The end of a
  range is a natural number; the 64-bit sum at kernel/src/fd/block_transfer.hpp:51 wraps.
- Malloc: addresses are natural numbers; a heap whose sums of addresses and sizes wrap around is not modelled.
- Realloc: the bytes that are copied are not modelled, and the header is read before the old block is taken out; the
  code reads it, and copies the bytes, when the kernel's heap may already have given back the pages behind it.
- Free: no pointer at or below the size of a header. Where the code follows a null pointer the model stops, in the state
  before.
- ResizeHeap: the pages of the heap are a set here; no class of Paging.dfy stands behind it.
- ShowRange: no range that ends behind page 0x100000, for which there is no directory entry; the code would use an index
  behind its arrays. Step does nothing for such a range.
- Borrow: where the temporary address space does not fit the model stops, and where no frame is left for a table, as the
  code does; where there are not enough frames for the pages of a copy the code follows a null pointer.
- Step: the kernel maps no pages of its own between the calls; that this changes no user's own part is what MapPage says.
- Link: of Directories without the link counts of inodes, and for blocks of less than 64 KiB.
- Fork: of Descriptors and Segments without threads, credentials and the heap pointer.
- SysOpen: looking a path up and checking permissions come before, and are not part of the model.
- DuplicateHandle: not what POSIX asks of dup2 for a target that is not open; the code takes the first free slot.
* Inode entries are kept in a table by number; where they lie on the disk, and their times, are not modelled. The
  first-data-block offset of ext2 is ignored, as in the code: block numbers are the code's own.
* The bits behind the last block of the bitmap are set, block 0 is in use, and a group has at most 65535 blocks.
* Pointer blocks read into a local buffer are sequences in the model. Products of pointer counts that would exceed 32
  bits do not occur below blocks of 64 KiB.
* Reading and writing file blocks share one function in the code and are two methods here.
* Looking names up in directories, names longer than 255 bytes, removing directories, and path lookup.
* Temporary page tables at boot, the rotating mapping window, mapping for drivers, and loading the page directory
  register.
* Resizing a segment in place, page faults, and loading programs.
* Other routines of arith64.c: shifts, trailing zeros, population counts.
* Circular buffers, physical memory sections, mutexes, devices, interrupts and the user interface.
