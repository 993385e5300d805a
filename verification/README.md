# A verified model of the xv6-derived kernels

This project models the hard parts of a set of xv6-derived teaching kernels and proves what
they promise. Where the source changes state in place, so do the classes and methods here
(buffer cache, log, inodes and bitmap, free lists, page tables, working set, run queue,
pipe, parser cursor); each method is proved against a specification, and the promises are
lemmas about the specification or invariants that every method keeps. Concurrency and
crashes are step machines whose runs are arbitrary sequences of atomic steps.

| file | what it models |
|---|---|
| `Params.dfy`, `Blocks.dfy` | shared constants; disk blocks as bytes, and the 32-bit words laid over them |
| `BufferCache.dfy` | `bio.c` over the memory disk: coherence, pinning, the release-ordered ring |
| `LogMachine.dfy`, `LogReservation.dfy`, `LogCode.dfy` | the redo log as a step machine with crashes; its space reservation; `log.c` as methods whose every block write is a step of the machine |
| `Dinodes.dfy`, `DiskLayout.dfy`, `Bitmap.dfy` | inodes packed eight to a block; where things lie, and the disk as bytes; the bits of the bitmap |
| `LogSteps.dfy` | what operations pass to `log_write`, as changes that the log applies and that may trade places |
| `Fs.dfy`, `Files.dfy`, `Inodes.dfy` | bitmap, block maps, byte-range reads and writes, with the blocks passed to `log_write`; chunked file writes; truncation and the inode cache |
| `Transactions.dfy`, `Image.dfy` | operations one after the other and overlapping; what a crash leaves of the file system |
| `Names.dfy`, `Directories.dfy`, `Paths.dfy` | path elements, directories as maps, path resolution |
| `FsLaws.dfy` | what the invariant, directories and paths come to in bytes on the disk |
| `Mkfs.dfy` | the file system that `mkfs` makes |
| `Umalloc.dfy` | the free-list allocator |
| `ShellGrammar.dfy`, `Shell.dfy`, `ShellLaws.dfy` | the shell's grammar with a printer; the parser over its buffer, and the zeros it writes; the rules of the grammar apart from any parser |
| `ClockQueue.dfy`, `WorkingSet.dfy` | encrypted pages and the second-chance working set |
| `PageTables.dfy`, `Spaces.dfy` | the page free list, two-level tables, conservation of pages; all address spaces over one free list |
| `Monitor.dfy`, `WaitExit.dfy` | sleep and wakeup, sleep-locks, `begin_op`; `wait` and `exit` |
| `SchedulerSpec.dfy`, `Scheduler.dfy` | the time-slice scheduler |
| `Grep.dfy`, `GrepLaws.dfy`, `Pipe.dfy` | the matcher and grep's line loop; what patterns match; the pipe's ring buffer |

## How to read the results

*Log.* A state of the machine holds the disk, the cache, the in-memory header, the running
operations and the history of logged writes with a mark after the last committed one. A run may
contain a crash anywhere, also in recovery. `CrashAtomicity` says that recovery from any
reachable disk leaves exactly the committed writes and no operation by halves;
`CommittedIsDurable` that the mark never moves back; `ReadersAndCommit` that readers see the
latest logged write. The class `Log` appends each state that its methods pass through to a ghost
trace, so what is proved of runs holds of the code; a false result stands for a panic. A commit does not
panic while the buffers in use and the blocks of the group together are fewer than the buffers of the
cache (`OneFree`, `AnotherFree`); with all 30 free that is so for any group (`IdleSpares`). It leaves the
same buffers in use. The header takes one of the `nlog` blocks:
`NeverTooBig` proves that operations of at most nine blocks never meet the guard in
`log_write`, and `TenIsTooMany` gives a run in which operations of ten blocks, the documented
budget, do; `ExactBudget` joins the two.

*Files.* One view relates the blocks, the inodes and, for every data block in use, the single
slot of the single inode that refers to it. Its invariant `Ok` says that the free bits of the
bitmap are exactly the data blocks that no slot holds, and that files have no holes. `readi`
allocates nothing under it; `writei` overlays the bytes and leaves every other file as it was.
`Journaled` says that what has been passed to `log_write` since `begin_op`, a sequence of changes that carry
the operation's id, makes the disk of then into that of now. All operations keep it, and `filewrite` yields its
transactions as a sequence in which each starts where the one before ended and has an id of its own.
Operations that overlap in a group mix their changes. If they change different bits, data blocks and inodes,
the disk after them is the one they would have left one after the other (`Serializes`), and writes to
different files are such operations (`WritersApart`). `CrashOperations` joins this to the log. It assumes that
what was logged at each commit is the work of such groups. Then what has been committed at a crash is the
work of such groups, write for write and under the same ids, and the recovered disk holds the file system that
these operations leave when they run one after the other. `CrashConsistent` asks only that every group leaves a
consistent file system, and says no more of what recovery leaves.

*Working set.* `Plain` is what a process would read in a page, complemented when the page is
encrypted. All operations keep it, and the queue that the circular array stands for holds exactly
the decrypted user pages.

*Pages.* `Spaces.System` holds any number of address spaces over one free list: each page is free or belongs to
one of them, as directory, table or user page, and to no other. Creating, growing, shrinking, copying and freeing
address spaces keep this.

*Shell.* The printer shows that the parser loses nothing; the rules in `ShellLaws` say what it means. A derivation
by the rules has its own tokens and its own tree, and `ParseIsGrammar` proves that the parser finds exactly these.

*grep.* `GrepCorrect` is the exact condition for reads of any sizes that use up the input: grep prints the
matching lines for every pattern if and only if no read leaves its buffer without a newline while one is
still to come, because it then empties the buffer. `ByteAtATime` is a short line that is lost in this way when
it arrives a byte at a time, as a pipe may deliver it. For reads that return as much as is asked for or
remains the condition is that every newline-terminated line fits in 1023 bytes with its newline
(`FullCorrect`).

*Scheduler.* The methods of `Ptable` are the steps of the histories in which `BoundedWait` and `Quota` are
proved; `Drive` makes any calls in any order and has the bounded wait as its postcondition. A sleep for a
negative number of ticks is let through: it makes the next round shorter (`NapIsCredited`, `FullRound`), and
the time slept is the one asked for if and only if the sum with the clock is a 32-bit time (`NapEnds`).

*Initial states.* `MakeFs` builds the layout that `mkfs` computes (log before the home blocks, metadata bits
set) with a root directory; block conservation holds of it and it is a tree. `NewOk` says the same of any
files that take blocks in turn. When the size of the root directory is a multiple of the block size `mkfs`
rounds it up past the last block, which makes a hole, and otherwise it does not (`RootHole`). `Root32` is a
file system in order with a root of 32 entries, and out of order after the rounding.

## Model

| member | source | states |
|---|---|---|
| Blocks.GetAfterSet | p6/fs.c:393-397 | storing an address in an indirect block changes that entry and no other |
| Blocks.WordBytes | p6/fs.c:389-393 | a 32-bit word is stored with its low byte first, and the other bytes of the block stay |
| BufferCache.Cache.Binit | p6/bio.c:38-56 | all buffers are on the ring, the last one in front, none valid, dirty or referenced, and the cache is coherent |
| BufferCache.Cache.Bget | p6/bio.c:58-93 | the one buffer of the block with a reference more; otherwise the least recently released buffer that is unreferenced and not dirty is recycled; a dirty block is never dropped |
| BufferCache.Cache.FindVictim | p6/bio.c:79-91 | the scan from the tail finds a clean unreferenced buffer such that every one released longer ago is in use or dirty |
| BufferCache.Cache.Bread | p6/bio.c:95-107 | the buffer holds the cached data of the block if a valid buffer had it, else the block of the disk; other cached contents and the disk stay |
| BufferCache.Cache.BlocksMean | p6/bio.c:58-107 | a block is cached exactly when a valid buffer of the device carries its number, and then with that buffer's data and dirty flag |
| BufferCache.Cache.Bwrite | p6/bio.c:109-115 | the disk block becomes the buffer's contents, the buffer is clean, nothing else changes |
| BufferCache.Cache.Brelse | p6/bio.c:117-141 | the reference is dropped; with none left the buffer becomes the most recently released one, and the ring stays a permutation of all buffers in order of release |
| BufferCache.Cache.MoveToFront | p6/bio.c:130-137 | unlinking and relinking keep the doubly linked ring over exactly the same buffers, the moved one first |
| BufferCache.Cache.Iderw | p6/memide.c:38-60 | a dirty buffer is written to the disk and becomes clean, any other is read from it; both become valid |
| BufferCache.Cache.Pin | p6/log.c:230 | B_DIRTY keeps the contents of the block as it is and forbids recycling its buffer |
| BufferCache.RecycledCoherent | p6/bio.c:79-91 | giving a clean unreferenced buffer to another block keeps at most one buffer per block |
| LogMachine.HeadRoundTrip | p6/log.c:84-111 | the header written by write_head decodes in read_head to the same block list |
| LogMachine.HeadWords | p6/log.c:99-111 | word 0 of the header block is the number of logged blocks, and word i + 1 the number of the i-th |
| LogMachine.ReplayMeans | p6/log.c:69-82 | recovery gives a block the contents of the log block that lies as far behind the header as the last header word that names it, and leaves a block that no word names |
| LogMachine.ReplayInstall | p6/log.c:69-82 | installing one logged block does not change what a recovery from the disk would yield |
| LogMachine.ReplayCommit | p6/log.c:99-111 | the single write of the header is what makes the whole group part of the recovered disk |
| LogMachine.StepInv | p6/log.c:69-233 | every step keeps the invariant: recovery yields exactly the committed writes and readers see all logged ones |
| LogMachine.RecoverReplays | p6/log.c:115-122 | completing recovery block by block gives every home block its replayed contents |
| LogMachine.CrashAtomicity | p6/log.c:69-122 | after a crash at any point of any run recovery leaves exactly the committed writes, and no operation has some of its writes among them and others not |
| LogMachine.CommittedIsDurable | p6/log.c:191-201 | a committed group stays committed through every later step and crash |
| LogMachine.CommittedAt | p6/log.c:191-201 | what has been committed is nothing or exactly what had been logged when some group was committed |
| LogMachine.ReadersAndCommit | p6/log.c:124-189 | outside recovery readers get the latest logged write whatever the cache holds; no operation runs during a commit, so the panic in end_op is unreachable |
| LogMachine.GroupsKeep | p6/log.c:191-201 | what holds of a new disk and after every group of operations holds of what recovery produces, wherever the crash |
| LogReservation.ReservedRun | p6/log.c:125-141 | in every run with operations of at most nine distinct blocks, entries logged and budget still unused stay within the admission bound, strictly when one operation is left |
| LogReservation.NeverTooBig | p6/log.c:213-219 | operations of at most nine distinct blocks never reach the guard for a transaction that is too big |
| LogReservation.TenIsTooMany | p6/log.c:213-219 | with the layout that mkfs makes there is a run of operations of ten blocks each that reaches the guard |
| LogReservation.ExactBudget | p6/log.c:125-141 | with mkfs's layout and operations of at most n blocks each, some run ends where one of them still has a block to log and meets the guard, if and only if n is at least MAXOPBLOCKS |
| LogCode.OneFree | p6/bio.c:79-92 | with more buffers than blocks in the log and buffers in use together, bget finds a buffer |
| LogCode.AnotherFree | p6/bio.c:79-92 | and, while it is held, another for a logged block that is not cached |
| LogCode.IdleSpares | p6/bio.c:79-92 | when none of NBUF buffers is in use there are enough for any group |
| LogCode.Log.CopyOne | p6/log.c:176-189 | one round of write_log is one copy step of the machine, and drops the references it takes |
| LogCode.Log.InstallOne | p6/log.c:69-82 | one round of install_trans is one install step of the machine, and drops the references it takes |
| LogCode.Log.WriteLog | p6/log.c:176-189 | the log area holds the cached contents of every logged block; every write in between is a step |
| LogCode.Log.InstallTrans | p6/log.c:69-82 | the home blocks hold the logged contents, cached copies agree and are no longer dirty; every write in between is a step |
| LogCode.Log.CommitHead | p6/log.c:99-111 | writing the header is the commit step |
| LogCode.Log.EraseHead | p6/log.c:99-111 | writing an empty header is the erase step |
| LogCode.Log.Commit | p6/log.c:191-201 | the running group becomes the committed one, installed and erased, through steps of the machine; an empty group writes nothing; it does not panic while there are more buffers than its blocks and those in use |
| LogCode.Log.ReadHead | p6/log.c:84-97 | the in-memory list is the one that the header block encodes, as the reboot step of the machine |
| LogCode.Log.RecoverFromLog | p6/log.c:53-122 | what initlog does at boot: a committed group found on the disk is installed and erased, step by step; then the home blocks hold exactly the committed writes |
| LogCode.Log.TryBeginOp | p6/log.c:124-141 | an operation is admitted exactly when no commit is going on and the log has room for the budgets of all |
| LogCode.Log.EndOp | p6/log.c:143-173 | the last operation of a group commits it, without a panic while there are more buffers than its blocks and those in use; any other only leaves |
| LogCode.Log.LogWrite | p6/log.c:213-233 | the block is in the list once, pinned, with its new contents, as a step of the machine; a full log or no operation is refused |
| LogCode.Log.Bzero | p6/fs.c:41-51 | a zeroed block is logged as one write step, and the buffer is released |
| Dinodes.PackRoundTrip | p6/fs.c:216-235 | the inode stored in its slot of a block is read back, and the other seven of the block are as they were |
| DiskLayout.InodeWords | p6/fs.c:216-235 | inode i is sixteen words from word 16 * (i % 8) on of the i/8-th inode block: type and major, minor and nlink as halves of two words, the size, thirteen addresses |
| Bitmap.BitAfterSet | p6/fs.c:66-68 | or-ing in 1 shifted by k sets bit k and no other |
| Bitmap.BitAfterClear | p6/fs.c:89-92 | masking out 1 shifted by k clears bit k and no other |
| Bitmap.UsedMeans | p6/fs.c:63-67 | block b is in use exactly when binary digit b % 8 of byte b % 4096 / 8 of the b/4096-th bitmap block is 1 |
| Bitmap.MarkFree | p6/fs.c:55-95 | changing the bit of a block in the right bitmap block takes or frees exactly that block |
| Bitmap.SetToSwaps | p6/fs.c:55-95 | the bits of two blocks, also in one byte, may be changed in either order |
| Fs.Fs.Balloc | p6/fs.c:55-78 | the lowest free block is returned, zeroed and marked in use; no other data block changes; both blocks are logged |
| Fs.Fs.Bfree | p6/fs.c:80-95 | exactly that block becomes free |
| Fs.OneSlotOk | p6/fs.c:372-400 | recording a fresh block in an empty slot keeps block conservation and the absence of holes |
| Fs.LinkedInSlots | p6/fs.c:387-397 | storing a fresh block's number in an indirect block fills that slot and changes no slot of any inode besides |
| Fs.GrowsContents | p6/fs.c:372-400 | while an inode gains blocks the contents of all files stay the same |
| Fs.SlotOwner | p6/fs.c:372-400 | no block is referred to by two slots |
| Fs.AddressAt | p6/fs.c:377-396 | the address of block bn is word bn of the inode for the first twelve, and word bn - 12 of the block that the thirteenth address names for the others |
| FsLaws.BlockConservation | p6/fs.c:55-95 | a data block is marked in use exactly when some inode refers to it, by an address of its own or one in its indirect block; no block is referred to by two inodes or by a free one; all blocks before the data blocks are in use |
| Fs.Fs.Bmap | p6/fs.c:370-400 | the address kept in the inode for one of the first twelve blocks, else the one in the indirect block, non-zero; an entry that exists changes nothing, one that does not becomes a fresh zeroed block; at most the indirect block is added; every change is logged |
| Fs.Fs.BmapDirect | p6/fs.c:377-387 | an address in the inode is returned, or filled with a fresh block |
| Fs.Fs.BmapIndirect | p6/fs.c:388-397 | an entry of the indirect block is returned, or filled with a fresh block and logged |
| Fs.ReadChunk | p6/fs.c:468-472 | a piece of the contents within one block lies in the block that the map gives |
| Fs.ContentsAt | p6/fs.c:469-472 | byte k of a file is byte k % 512 of the block whose address is entry k / 512 of the inode, or for entries past the twelfth of its indirect block |
| Fs.Fs.ReadPiece | p6/fs.c:469-473 | one round of the loop gives the bytes of the file that lie in one block, and changes nothing |
| Fs.Fs.Readi | p6/fs.c:452-475 | exactly the clipped slice of the contents, or -1 past the end; nothing is allocated or changed; for a device with a number below 10 and a read routine what that answers, for any other device -1 |
| Fs.PatchedBytes | p6/fs.c:496-502 | copying a piece into its block overlays the file's bytes there and only there |
| Fs.PatchedOthers | p6/fs.c:496-502 | and no other file changes |
| Fs.OverlayTwice | p6/fs.c:496-502 | consecutive overlays are one overlay of the concatenation |
| Fs.OverlayAt | p6/fs.c:496-502 | an overlay has the source bytes where they were put and the old ones elsewhere, and is longer only if they reach past the end |
| Fs.WantedStep | p6/fs.c:496-502 | the free blocks that a write asks for, none where blocks exist, are exactly used up piece by piece |
| Fs.InLogMore | p6/log.c:203-233 | making a change and logging it keeps it so that the changes logged since begin_op, all under the operation's id, make the disk of then into that of now |
| Fs.Fs.LogWrite | p6/log.c:203-233 | the block has its new contents, and the change of a bit or a data block that this is has been recorded for the operation |
| Fs.Fs.PutInode | p6/fs.c:216-235 | the inode on disk is the one given, and the change is recorded for the operation |
| Fs.Fs.WriteLoop | p6/fs.c:496-502 | the loop overlays all of the source bytes, and allocates nothing when the file does not grow |
| Fs.Fs.Writei | p6/fs.c:481-511 | every byte from the offset on is the source's, every other byte the old one, and the size is the old one or the end of what was written, whichever is more; -1 and nothing done past the end or beyond 140 blocks; every other inode and its contents are unchanged; the inode on disk agrees with the one in memory; every change is logged and is one of this inode, its blocks or their bits; for a device with a number below 10 and a write routine what that answers, for any other device -1 |
| Files.ChunkBudget | p6/file.c:126-138 | a chunk of filewrite logs at most seven distinct blocks when one bitmap block covers the disk |
| Files.FileChunk | p6/file.c:138-144 | one transaction of filewrite overlays its chunk, leaves the file system in order with all changes logged under its id, in at most seven blocks, and changes no other file |
| Files.FileWrite | p6/file.c:116-154 | all bytes are written; or, when the file would get too big, the whole chunks of 1536 bytes that fit; or none from past the end; the offset advances by what was written; it is a sequence of transactions, one after the other, with ids of their own, none of which logs more than seven blocks or changes what is not of this file; other files are as they were |
| Inodes.StillUsed | p6/fs.c:90-91 | in the course of a truncation the next block to free is still in use, so "freeing free block" is unreachable |
| Inodes.TruncatedOk | p6/fs.c:407-435 | freeing every block of an inode keeps block conservation |
| Inodes.TruncatedContents | p6/fs.c:407-435 | truncation changes no other file |
| Inodes.Itrunc | p6/fs.c:407-435 | the blocks that become free are exactly the inode's data and indirect blocks; size and all addresses are 0 and type, numbers and links as before, on disk too; other files are as they were; every change is logged |
| FsLaws.TruncationFrees | p6/fs.c:407-435 | those blocks are the non-zero addresses of the inode and of its indirect block |
| Inodes.RetypedOk | p6/fs.c:204-207 | an inode without blocks may be given a type or freed without losing a block |
| Inodes.Icache.Iget | p6/fs.c:238-272 | one reference more for the entry of the inode, and none for any other; no inode is cached twice; a recycled entry is not valid |
| Inodes.Icache.Ilock | p6/fs.c:285-312 | the entry is valid and agrees with the disk; a free inode is refused |
| Inodes.Icache.Iput | p6/fs.c:324-350 | one reference less; the last one to an unlinked inode frees its blocks and leaves it on disk with type 0, size 0 and no address, and changes no other file; any other changes nothing on disk |
| Inodes.Icache.Ialloc | p6/fs.c:190-214 | the first inode without a type gets one, empty and referenced, and no other changes |
| Names.Strncmp | p6/string.c:58-66 | zero exactly when the two strings, cut at n bytes, are equal |
| Names.Strncpy | p6/string.c:68-80 | n bytes: the string, cut at n, and zeros behind it |
| Names.TakeWord | p6/fs.c:603-613 | a run without slashes is the first element of a path, cut to DIRSIZ bytes |
| FsLaws.ElemsMean | p6/fs.c:580-617 | the elements of a path: none of the empty one, slashes in front do not count, and a run of other bytes up to a slash or the end is one element, cut to fourteen bytes |
| Names.Skipelem | p6/fs.c:580-617 | the name is the first of the path's non-empty pieces between slashes, cut to DIRSIZ bytes; the rest has the remaining ones, and is empty exactly when there are none |
| Directories.LookupIsMap | p6/fs.c:523-548 | the scan for a name finds what the directory, as a map, binds it to |
| FsLaws.EntryMeans | p6/fs.c:532-545 | entry k is sixteen bytes from byte 16 * k on: the inode number, low byte first, and the name, up to a zero or all fourteen bytes |
| FsLaws.DirMapMeans | p6/fs.c:523-548 | the map binds a name exactly when an entry with a non-zero number has it, and to the number in the first such entry |
| Directories.GainedMap | p6/fs.c:550-578 | writing an unused entry binds one more name in the map, and names stay distinct |
| Directories.Scan | p6/fs.c:532-545 | the scan stops at the first entry in use whose name is equal under namecmp |
| Directories.Dirlookup | p6/fs.c:523-548 | the inode that the directory, as a map, binds the name to, with one reference more and the offset of the entry; or null, and no change, exactly when the name is not bound |
| Directories.Vacant | p6/fs.c:563-568 | the first unused entry, or the end |
| Directories.Dirlink | p6/fs.c:550-578 | -1 and no change when the map has the name; otherwise the map gains exactly this name, in an unused entry or at the end; other files and all reference counts are unchanged; every change is logged |
| Paths.ParentThenStep | p6/fs.c:624-670 | resolving a path is resolving its parent and looking up the last element there |
| Paths.StepIsBinding | p6/fs.c:636-650 | a step from an inode is what its contents, as a map, bind the name to, and fails for anything that is not a directory |
| Paths.ParentIsWalk | p6/fs.c:640-655 | the parent is where all elements but the last lead, if that is a directory |
| Paths.WalkTwice | p6/fs.c:634-651 | resolution is a left fold: a path in two parts is resolved one after the other |
| Paths.Descend | p6/fs.c:645-650 | the next inode is referenced and this one let go |
| Paths.Namex | p6/fs.c:619-657 | the inode that the left fold of lookups reaches, from inode 1 if the path begins with a slash (byte 47) and from the current directory if not, or its parent and the last name; on every path out only the returned inode has a reference more, and the disk is unchanged |
| Paths.Follow | p6/fs.c:634-651 | the loop ends with the answer or at the end of the path, the walk from the present inode over the rest being the walk of the whole path |
| DiskLayout.TabOfImage | p6/fs.c:216-235 | reading the inodes out of the disk image gives the inode table |
| DiskLayout.ImageTab | p6/fs.c:216-235 | copying an inode into its block, as read, is what changes that inode in the disk image; it does not matter what the slot held or in which order inodes were stored |
| Image.ImageConsistent | p6/fs.c:331-435 | a file system in order is a consistent disk once its inodes are packed |
| LogSteps.DoChanges | p6/log.c:203-233 | a change of a bit, a data block or an inode is one changed block of the disk image: the block as read with the change made in it |
| LogSteps.WritesApply | p6/log.c:203-233 | the log's writes for a sequence of changes, applied in order, take the disk image before them to the one after them |
| LogSteps.Trade | p6/log.c:203-233 | changes of different bits, data blocks or inodes may be made in either order, also when they are in one block |
| LogSteps.RunFirst | p6/log.c:125-173 | an operation that changes nothing that another does may have run before the others |
| Transactions.SerialApplies | p6/log.c:203-233 | the writes logged by operations that follow one another, applied in order, take the disk image before the first to that after the last |
| Transactions.Serializes | p6/log.c:125-173 | operations that overlap, each with its changes in its order, and change different things leave the disk as if they had run one after the other |
| Transactions.WritersApart | p6/fs.c:481-511 | writes to different files change different bits, data blocks and inodes |
| Transactions.ChainExec | p6/log.c:125-201 | groups of such operations lead from one file system in order to another, and their changes in the order made lead from its disk to the other's |
| Image.LoggedIsAll | p6/log.c:203-233 | an operation that has logged every change has changed no other block of the disk |
| Image.GroupApplied | p6/log.c:203-233 | the log writes of groups of overlapping operations take the old disk image to the new one, which is consistent |
| Image.CrashConsistent | p6/log.c:69-122 | if every group of operations leaves a consistent file system, so does recovery from a crash at any point of any run |
| Image.SerialExplains | p6/file.c:126-146 | operations one after the other, as filewrite's transactions are, meet what `CrashOperations` asks |
| Image.WritersExplain | p6/log.c:125-173 | and so do overlapping writes to different files |
| Image.CrashOperations | p6/log.c:69-122 | if what was logged at each commit is the work of operations that overlap only in changing different things, then at a crash anywhere in a run what has been committed is the work of such operations, write for write and under their ids, and the recovered disk holds what they leave one after the other, which is in order |
| Mkfs.LayoutGood | p6/mkfs.c:94-103 | inodes begin at block 32, behind boot block, super block and log, and the bitmap behind the inode blocks, before the data blocks; with room for all of them the areas are in order |
| Mkfs.UsedBits | p6/mkfs.c:237-254 | the bitmap block has exactly the first bits set |
| Mkfs.NewOk | p6/mkfs.c:154-165 | block conservation holds of a new file system whose files have taken blocks in turn |
| Mkfs.MakeFs | p6/mkfs.c:100-165 | without files to copy: block conservation holds, and the tree is a root directory that names itself twice |
| Mkfs.RootHole | p6/mkfs.c:158-163 | rounding up the size of the root directory makes a hole exactly when it is a multiple of the block size |
| Mkfs.Root32 | p6/mkfs.c:158-163 | a file system in order whose root directory is 32 entries in one block; rounded up, the root has a hole and the file system is not in order |
| Umalloc.UnitsSuffice | p6/umalloc.c:69 | the rounded request holds the bytes asked for exactly when it does not wrap in 32 bits |
| Umalloc.UnitsMeans | p6/umalloc.c:69 | the units of a request are those of a header and of the bytes asked for, with less than one to spare, unless the rounding wraps; then it is one unit |
| Umalloc.SbrkAsksExactly | p6/umalloc.c:52-54 | the argument of sbrk is the number of bytes needed exactly when that fits in a signed int |
| Umalloc.FreedOk | p6/umalloc.c:25-44 | linking in a block and joining it on both sides gives again one ascending cycle of disjoint blocks that do not touch |
| Umalloc.FreedMaps | p6/umalloc.c:33-43 | the two tests of free and the words it stores compute that list |
| Umalloc.Allocator.FindPlace | p6/umalloc.c:30-32 | the search ends, at the last list element below the block |
| Umalloc.Allocator.Free | p6/umalloc.c:24-44 | the block is free and some free block is at least as large; all other live blocks and the units owned are unchanged |
| Umalloc.Allocator.Morecore | p6/umalloc.c:46-60 | what sbrk gives, 4096 units or as many as asked if that is more, is added to the list as free units; sbrk is asked for exactly their bytes if and only if fewer than 2^28 units are needed; a refusal changes nothing |
| Umalloc.Allocator.Carve | p6/umalloc.c:75-85 | a block of exactly the size asked, disjoint from all live and free ones |
| Umalloc.Allocator.Malloc | p6/umalloc.c:63-90 | a fresh block of (nbytes + 7) / 8 + 1 units, the sum taken modulo 2^32, or null exactly when sbrk was asked and refused; sbrk is asked exactly when every free block is smaller, at most once, for 4096 units at least, and for exactly the bytes of the units gained if and only if fewer than 2^28 units are wanted; live blocks keep their sizes |
| Umalloc.Allocator.Search | p6/umalloc.c:74-89 | the search goes once round the list before memory is asked for, and ends |
| Umalloc.Conservation | p6/umalloc.c:24-90 | free and allocated units together are those obtained from sbrk, and live blocks overlap neither one another nor a free block |
| Umalloc.ListMeans | p6/umalloc.c:24-44 | the list runs from the base block through the free blocks, addresses ascending, and back to the base; no two free blocks touch |
| Umalloc.BlocksMean | p6/umalloc.c:24-90 | blocks, free or live, do not overlap and none is both; every unit obtained from sbrk lies in a block, and every block in such units |
| ShellGrammar.ExecOk | p6/sh.c:374-446 | a printed command, with redirections after it, is parsed back by parseexec, the later redirections outside |
| ShellGrammar.PipeOk | p6/sh.c:361-372 | a printed pipeline is parsed back |
| ShellGrammar.BackOk | p6/sh.c:350-353 | a printed pipeline with its ampersands is parsed back |
| ShellGrammar.LineOk | p6/sh.c:344-359 | a printed line is parsed back, up to what may follow it |
| ShellGrammar.LexSpell | p6/sh.c:265-308 | spelling tokens with spaces between and reading them again gives the same tokens |
| ShellGrammar.ParseShow | p6/sh.c:265-446 | for every tree with at most nine proper words to a command, parsing its printed form gives the tree |
| ShellGrammar.ParsedIsShown | p6/sh.c:265-446 | every tree that the parser gives is of that kind, so printing and parsing it again gives the same |
| ShellLaws.LineParses | p6/sh.c:344-446 | whatever the rules of the grammar allow, redirections in any place and parentheses that are not needed included, is parsed to the tree that the rules give it, up to what may follow |
| ShellLaws.LineDerives | p6/sh.c:344-446 | whatever the parser takes is, token by token, a line that the rules allow, and its tree is that line's |
| ShellLaws.ParseIsGrammar | p6/sh.c:327-446 | a line of text parses to a tree if and only if its tokens are those of an allowed line with this tree; so the grammar is not ambiguous and any other text is an error |
| ShellLaws.Brackets | p6/sh.c:344-413 | parentheses do not change a tree; `&` behind them makes a background command, `;` a list and a vertical bar a pipe of the two sides |
| ShellLaws.Redirected | p6/sh.c:374-397 | `<f` anywhere among at most nine words is the redirection of descriptor 0 with mode 0, and `>f` and `>>f` that of descriptor 1 with mode 0x201, of the command with all the words |
| ShellLaws.BlockRedirected | p6/sh.c:399-413 | and so after a parenthesised line |
| ShellLaws.WordsAlone | p6/sh.c:425-446 | up to nine words are a command with these arguments; ten or more are an error |
| ShellLaws.AppendIsInto | p6/sh.c:389-393 | writing `>` for `>>` anywhere changes neither the tree nor whether there is one |
| ShellLaws.LexBlank | p6/sh.c:262-273 | a blank, tab, newline, carriage return or vertical tab in front changes no token |
| ShellLaws.LexSymbol | p6/sh.c:277-288 | each of the other symbols, and `>` without another behind it, is a token |
| ShellLaws.LexAppend | p6/sh.c:288-294 | `>>` is one token |
| ShellLaws.LexWord | p6/sh.c:295-299 | a longest run of characters that are neither blank nor symbol is a word |
| Shell.Parser.Gettoken | p6/sh.c:265-308 | the answer and span of the first token of the rest of the line; the cursor is before the others |
| Shell.Parser.Peek | p6/sh.c:310-319 | true exactly when the next token starts with one of the symbols; no token is used up |
| Shell.Parser.ParseRedirs | p6/sh.c:374-397 | the command wrapped in the redirections that follow, `<` with mode 0 and descriptor 0, `>` and `>>` alike with mode 0x201 and descriptor 1, or an error exactly when the grammar has one |
| Shell.Parser.ParseBlock | p6/sh.c:399-413 | the parenthesised command with its redirections, as the grammar gives it |
| Shell.Parser.ParseSimple | p6/sh.c:425-446 | words and redirections in any order give the grammar's tree; the tenth word is an error |
| Shell.Parser.ParseExec | p6/sh.c:415-446 | the outcome of the grammar's function, terminating |
| Shell.Parser.ParsePipe | p6/sh.c:361-372 | the outcome of the grammar's function, terminating |
| Shell.Parser.ParseLine | p6/sh.c:344-359 | the outcome of the grammar's function, terminating |
| Shell.Nulterminate | p6/sh.c:448-493 | zeros are written at exactly the ends of the tree's words |
| Shell.NulNonInterference | p6/sh.c:448-493 | no zero falls inside a word: every word and file name read as a C string from the changed buffer is its token's text |
| Shell.Parsecmd | p6/sh.c:327-342 | a syntax error exactly when the grammar has one; else the tree whose C strings in the changed buffer are the grammar's words |
| ClockQueue.MoveHand | p6/vm.c:585-589 | moving the hand and storing there rotates the round |
| ClockQueue.Append | p6/vm.c:592-596 | while there is room the page joins the queue at the back |
| ClockQueue.Delete | p6/vm.c:636-646 | closing the gap in the array is taking one page out of the queue, the empty slots staying right after the hand |
| WorkingSet.FlipKeeps | p6/vm.c:447-459 | complementing the bytes of a page and flipping its encrypted flag changes what no page holds |
| WorkingSet.Space.Mencrypt | p6/vm.c:463-509 | all pages or none: if one is inaccessible nothing changes; else each page of the range is flagged encrypted, every byte b of those that were not has become 0xFF - b, and no other frame or flag has changed; what the pages hold stays |
| WorkingSet.Space.WsetInsert | p6/vm.c:581-616 | second chance: with room the page joins at the back and no byte changes; in a full queue the referenced pages at the front lose their bit and go to the back, the first unreferenced one is encrypted, every byte b of its frame now 0xFF - b, and leaves, within CLOCKSIZE+1 moves of the hand |
| WorkingSet.Space.WsetDelete | p6/vm.c:618-650 | exactly that page leaves and the rest keep their order; -1 exactly when it is absent |
| WorkingSet.Space.ClearWset | p6/vm.c:652-659 | the queue is empty |
| WorkingSet.Space.Mdecrypt | p6/vm.c:430-461 | after a fault on an encrypted page it is present and last in the queue, every byte b of its frame now 0xFF - b; if the queue was full the second-chance victim has gone from it and is complemented likewise; all other frames are as they were; the queue holds exactly the decrypted user pages; what pages hold stays; -1 exactly for a kernel or unmapped address |
| WorkingSet.Space.ExecPages | p6/exec.c:105-118 | the new image starts with an empty queue and every user page encrypted, those that were not with every byte b now 0xFF - b; contents kept |
| WorkingSet.Space.Grow | p6/proc.c:161-181 | page-aligned growth adds zero pages, encrypted, so that every byte in memory is 0xFF, outside the queue; a failure changes nothing |
| WorkingSet.Space.Fork | p6/proc.c:221-245 | the child has the parent's pages byte for byte, flags, queue and hand in frames of its own |
| WorkingSet.Space.CopyPages | p6/vm.c:347-371 | every page is copied with its flags |
| PageTables.Kmem.Kalloc | p6/kalloc.c:82-95 | the page at the head of the list linked through the free pages, which then holds the others, so that no page is handed out twice |
| PageTables.Kmem.Kfree | p6/kalloc.c:59-77 | the page is linked in front of the list, which stays free of repetitions |
| PageTables.Kmem.Freerange | p6/kalloc.c:46-53 | page p joins the list exactly when all of its bytes, from 4096 * p on, lie in the range |
| PageTables.Vm.Walk | p6/vm.c:48-75 | a table is found or, if asked, made from a free page; no page is lost |
| PageTables.Vm.Mappages | p6/vm.c:77-109 | the pages from va / 4096 to that of the last byte are mapped to consecutive pages, or a first part of them when no table can be had; other entries stay; the pages owned grow by exactly the user pages mapped; it ends on every range, also one that reaches 2^32 |
| PageTables.Vm.Deallocuvm | p6/vm.c:280-309 | exactly the pages that begin at or past the new size and before the old one are unmapped, and join the free list; skipping missing tables frees the same pages in the same order as going page by page |
| PageTables.Vm.Allocuvm | p6/vm.c:246-278 | exactly the pages that begin at or past the old size and before the new one become mapped and no mapping changes, or the user mappings are as before; no page is lost either way |
| PageTables.Vm.Freevm | p6/vm.c:311-331 | what joins the free list is exactly the directory, the tables and the user pages of the address space |
| PageTables.OneOwnerMeans | p6/vm.c:246-331 | no page is free and in use, and none is in use twice, whether as directory, table or user page |
| PageTables.Setupkvm | p6/vm.c:134-167 | page v is mapped exactly when it is one of 0x80000 to 0x8DFFF, and then to physical page v - 0x80000, or one of 0xFE000 to 0xFFFFF, and then to itself; or every page taken is returned |
| PageTables.KernelMeans | p6/vm.c:134-145 | the four kernel mappings together send a page there, wherever the kernel's data begins |
| PageTables.Copyuvm | p6/vm.c:345-379 | the child maps a page of its own for every page of the parent below its size, and the kernel's half to the same physical pages as any other, or every page taken is returned |
| Spaces.Traded | p6/vm.c:246-309 | when one address space trades pages with the free list every page still has one owner |
| Spaces.PartitionMeans | p6/vm.c:246-331 | every page is free or used by an address space, as directory, table or user page, never both, never by two, and never as two user pages of one |
| Spaces.System.Create | p6/vm.c:147-167 | a new address space joins with the kernel's mappings, or none; every page still has one owner |
| Spaces.System.Grow | p6/vm.c:246-278 | allocuvm on one of the address spaces: every page still has one owner, and the others keep theirs |
| Spaces.System.Shrink | p6/vm.c:280-309 | deallocuvm on one of them likewise |
| Spaces.System.Fork | p6/vm.c:345-379 | a copy of one of them joins, or none; every page still has one owner |
| Spaces.System.Exit | p6/vm.c:311-331 | one of them is freed and gone; every page still has one owner |
| Monitor.NoLostWakeup | p6/proc.c:461-522 | in every interleaving, who sleeps has reason to or is about to be woken by the holder of the lock |
| Monitor.SleepLock | p6/sleeplock.c:22-42 | at most one process holds a sleep-lock, and no one sleeps on a free one unless its releaser has yet to run wakeup's loop |
| Monitor.BeginOp | p6/log.c:124-174 | who sleeps in begin_op does so while operations run or a commit goes on, or is about to be woken; end_op never finds a commit going on |
| WaitExit.Table.Exit | p6/proc.c:291-315 | the process is a zombie, its children have init as their parent; the parent is runnable if it slept in wait, and so is init if a child has exited; nothing else changes, and no parent is left asleep with a zombie child |
| WaitExit.Table.Wait | p6/proc.c:317-362 | the first zombie child is reaped, its slot UNUSED with pid 0, no parent and not killed, and no other slot changes; -1 exactly without children or when killed; otherwise it sleeps, with no zombie child |
| WaitExit.Table.WaitThenFork | p6/proc.c:335-347 | after a child has been reaped a fork finds a free slot |
| WaitExit.Table.Kill | p6/proc.c:524-547 | the first process with the pid is marked killed, and runnable if it slept, all else of it and of the others being as before; -1 exactly when there is none; no parent is left asleep with a zombie child |
| SchedulerSpec.BoundedWait | p4/src/proc.c:408-483 | in any history of calls a waiting process is dispatched after no more dispatches of others than the ticks left in front of it |
| SchedulerSpec.WaitInPlace | p4/src/proc.c:408-483 | if none of those in front has more than n ticks left, the process in place k is dispatched after no more than k * n dispatches of others |
| SchedulerSpec.Quota | p4/src/proc.c:443-451 | a process that stays runnable is dispatched for its slice and its compensation, and counts those beyond the slice |
| SchedulerSpec.FullRound | p4/src/proc.c:443-470 | in a whole round a process that stays runnable gets exactly timeslice + activesleepticks dispatches, also when the latter are negative; when positive they are counted as compensation |
| SchedulerSpec.EndOfRound | p4/src/proc.c:465-479 | a process at the end of its round goes behind every other eligible one, with a switch more, its ticks and its compensation back to 0 and its other counters as they were |
| SchedulerSpec.DispatchAhead | p4/src/proc.c:425-483 | a dispatch of another process uses up a tick in front of one that waits |
| SchedulerSpec.DispatchFirst | p4/src/proc.c:424-480 | the first runnable process with activeticks below timeslice + activesleepticks runs; of those before it the runnable ones are at the back, in order, and the others off the queue |
| SchedulerSpec.DispatchCounts | p4/src/proc.c:440-477 | it counts a tick, one as compensation if it lies beyond the slice; each runnable one before it begins a new round; no other process is touched |
| SchedulerSpec.DispatchAnew | p4/src/proc.c:465-477 | when none has ticks left the first runnable one begins a new round and runs its first tick |
| SchedulerSpec.DispatchKeeps | p4/src/proc.c:425-483 | the loop loses no process that can run |
| Scheduler.DispatchExact | p4/src/proc.c:425-483 | out of the loop the queue is exactly the runnable and the running processes, the running one at its head |
| Scheduler.Ptable.Push | p4/src/proc.c:42-60 | the linked list gains the process at its end |
| Scheduler.Ptable.Pop | p4/src/proc.c:65-82 | the linked list loses its head |
| Scheduler.Ptable.Schedule | p4/src/proc.c:425-483 | the loop, which ends, does what the specification of a dispatch says |
| Scheduler.Ptable.Wakeup1 | p4/src/proc.c:585-614 | who sleeps on the channel, and on the clock only from its deadline on, is RUNNABLE and on the queue with activeticks 0 and its compensation kept, in the order of the table; a sleeper on the clock, woken or not, counts a tick; every other process is as it was |
| Scheduler.DueIs | p4/src/proc.c:585-614 | those are the processes asleep on the channel and past their deadline, each once, in the order of the table |
| Scheduler.Ptable.Yield | p4/src/proc.c:512-518 | the process keeps its place as runnable and the loop goes on from there, after which the queue is exact again |
| Scheduler.Ptable.Resume | p4/src/proc.c:408-425 | on an idle processor the loop goes on from the queue as it is |
| Scheduler.Ptable.Sleep | p4/src/proc.c:543-580 | the process is asleep on the channel and off the queue, and the loop goes on from there |
| Scheduler.Ptable.SysSleep | p4/src/sysproc.c:54-79 | for any number of ticks, negative ones too, the process is asleep on the clock and off the queue, sleepdeadline being the sum of clock and argument modulo 2^32, activesleepticks the argument and activeticks 0 |
| Scheduler.NapIsCredited | p4/src/sysproc.c:66-68 | once woken it has its slice and the ticks it asked for left, fewer than the slice if that was negative; it is eligible if and only if that is more than none, and in any case after the loop has recharged it |
| Scheduler.NapEnds | p4/src/sysproc.c:66 | a process is due exactly from the tick that is the sum of clock and argument on, if and only if that sum neither wraps nor is negative |
| Scheduler.Ptable.Exit | p4/src/proc.c:346-349 | the process is a zombie and off the queue after the next dispatch |
| Scheduler.Ptable.Reap | p4/src/proc.c:375-387 | a zombie's slot becomes unused, a call that any history may hold; nothing else changes |
| Scheduler.Ptable.Fork2 | p4/src/proc.c:743-793 | the child joins the queue with its slice and cleared counters; -1 for a bad slice, a full table or no memory |
| Scheduler.Perform | p4/src/proc.c:408-618 | every call is a step of a history: others join the queue, or the loop goes on |
| Scheduler.Drive | p4/src/proc.c:408-618 | any calls in any order are a history, in which a waiting process is dispatched within its bound |
| Grep.HereStar | p6/grep.c:98-106 | a starred character and what follows match when the follow-up matches after some run of fitting characters |
| GrepLaws.OneMeans | p6/grep.c:93-95 | after '^' a character matches itself, and '.' any one character |
| GrepLaws.StarMeans | p6/grep.c:98-106 | after '^' a starred character matches any run of itself, and `.*` anything |
| GrepLaws.Unanchored | p6/grep.c:76-81 | a pattern without '^' is found when it matches at some place of the text |
| GrepLaws.Anywhere | p6/grep.c:72-96 | a string without operators is found exactly in the texts in which it occurs |
| GrepLaws.AtStart | p6/grep.c:74-75 | with '^' before it, in those that begin with it |
| GrepLaws.AtEnd | p6/grep.c:91-92 | with '$' behind it, in those that end in it |
| GrepLaws.Whole | p6/grep.c:72-96 | with both, in that text alone |
| GrepLaws.AnyChar | p6/grep.c:93-95 | two strings with '.' between them are found where one character lies between their occurrences |
| GrepLaws.Starred | p6/grep.c:98-106 | two strings with a starred character between them are found where a run of that character lies between, with `.*` wherever the second follows the first |
| Grep.MatchHere | p6/grep.c:84-96 | agrees with the meaning of the pattern at the start of the text |
| Grep.MatchStar | p6/grep.c:98-106 | agrees with the meaning of a starred character before a pattern |
| Grep.Match | p6/grep.c:72-82 | agrees with the meaning of the pattern anywhere, or at the start after a caret |
| Grep.LineStep | p6/grep.c:20-28 | the output of a buffer is its first line with the newline, if the pattern is found in it, and then the output of the rest |
| Grep.Scan | p6/grep.c:20-28 | the complete lines in the buffer that match are written in order, and the incomplete one is left |
| Grep.Grep | p6/grep.c:10-36 | the loop over the buffer computes its specification for reads of any sizes |
| Grep.KeptCorrect | p6/grep.c:10-36 | while no read empties the buffer too early, what is printed from any point on is the matching lines of buffer and input |
| Grep.LostShorter | p6/grep.c:29-30 | emptying the buffer while a newline is still to come makes the output with the empty pattern too short |
| Grep.GrepCorrect | p6/grep.c:10-36 | for reads of any sizes that use up the input, the output is right for every pattern if and only if no read leaves the buffer without a newline while one is still to come |
| Grep.ByteAtATime | p6/grep.c:29-30 | a line of two letters, read a byte at a time, comes out as its newline alone |
| Grep.FullCorrect | p6/grep.c:10-36 | with reads that return as much as is asked for or remains, the output is right for every pattern if and only if every newline-terminated line fits in 1023 bytes with its newline |
| Pipe.Wraparound | p6/pipe.c:85-93 | the counters modulo 2^32 tell full and empty apart and index the ring like unbounded ones |
| Pipe.Pipe.Put | p6/pipe.c:93 | the byte is accepted behind the others |
| Pipe.Pipe.Get | p6/pipe.c:117 | the next byte in the order of acceptance is delivered |
| Pipe.Pipe.PipeWrite | p6/pipe.c:78-98 | the bytes are accepted in order, among those that others write meanwhile; all of them unless the reader closes or the writer is killed or left asleep on a full pipe with its read end open |
| Pipe.Pipe.PipeRead | p6/pipe.c:100-121 | the next bytes in order, after those that others read meanwhile, as many as asked or buffered; none only at the end of the file, and it sleeps or fails only on an empty pipe that can still be written |

## Left out

- Device and boot code, trap dispatch, ELF loading, user programs other than the shell and grep, the system-call layer.
- p2 system-call counters, p5 and the copies of the p6 files in other directories, p1 utilities: no hard property beyond those proved.
- BufferCache.Cache.Bget: waiting for the sleep-lock of a buffer held by another process is not modelled; the lock's protocol is `Monitor.SleepLock`. One device.
- LogCode.Log.TryBeginOp: the waiting loop of begin_op is `Monitor.BeginOp`; here a refused operation returns.
- LogCode.Log.EndOp: the two calls of wakeup are steps of `Monitor.BeginOp`; here they have no effect to state.
- Fs.Fs.Balloc: running out of blocks, where the source panics, is excluded by a precondition; so is running out of inodes.
- Fs.Fs.Writei: the precondition asks for free blocks only where the file has none, the indirect block included; a driver's side effects are not modelled.
- Files.FileWrite: pipes and device files are not written through it; `Pipe.Pipe.PipeWrite` models the former.
- Fs.Fs.PutInode: works on the inode table; `DiskLayout.ImageTab` relates it to the bytes of the inode blocks.
- Image.CrashConsistent: that a group leaves a consistent file system is its hypothesis.
- Image.CrashOperations: its hypothesis is met by one filewrite after another (`Image.SerialExplains`) and by overlapping writes to different files whose changes are those of some order (`Image.WritersExplain`). That the code makes such changes when it is interrupted is not proved, because methods here run without interruption; so are not groups in which one operation takes a block that another has given back.
- Mkfs.MakeFs: the files that mkfs copies from the host are not modelled, apart from the blocks they take (`Mkfs.NewOk`).
- Inodes.Icache.Ilock: the sleep-lock inside an inode is not modelled, so operations on one inode do not interleave.
- Inodes.Icache.Iput: the same holds of the sleep-lock around its test.
- Paths.Namex: entries are assumed to name inodes with links (`Paths.Tree`), which system calls outside this model maintain.
- Umalloc.Allocator.Malloc: sbrk is a parameter that answers with an address above all earlier ones; what a process does with memory that sbrk did not give, after a request of 2^28 units or more, is not modelled.
- Shell.Parser.ParseLine: tree nodes are values, not malloc'ed structures filled in place; `panic` is a result.
- WorkingSet.Space.Mdecrypt: a call on a page that is not encrypted is excluded; queue entries are page numbers; the hardware's setting of the reference bit appears as an assignment.
- WorkingSet.Space.Mencrypt: -1 for an address whose page table is missing; there uva2ka reads through a null pointer (p6/vm.c:388-397). No caller passes such an address.
- WorkingSet.Space.Grow: growth that is not page-aligned and shrinking are not modelled, because growproc then leaves pages unencrypted or deletes from the wrong end.
- WorkingSet.Space.WsetDelete: requires a hand that has moved (0 or more), since the source indexes before the array otherwise.
- PageTables.Copyuvm: page bytes and flags are those of `WorkingSet.Space.CopyPages`; here it is who owns which page.
- Spaces.System.Valid: pages that the kernel takes for stacks and pipes are outside of it.
- PageTables.Kmem.Kfree: the panic on an address outside the allocator's memory is not modelled.
- Scheduler.Ptable.SysSleep: several processors, kill (which leaves a sleeper runnable but off the queue) and changing a slice in mid-round are not modelled; tick counters are unbounded.
- SchedulerSpec.BoundedWait: the process that waits must have ticks in its round, as every process on the queue but the head does, unless it was woken after a negative sleep at least as long as its slice.
- Monitor.NoLostWakeup: a spin-lock is an atomic test in the machine; pushcli and popcli nesting is not modelled.
- Grep.GrepCorrect: input without NUL bytes; a read that fails in mid-input is not modelled.
