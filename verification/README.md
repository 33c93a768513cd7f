# OS67 kernel: a verified model

This project models the parts of the OS67 kernel in which state is shared and nothing may be lost:
the Minix v1 file system from the disk's request queue up to path names, physical memory and page
tables, the process table, pipes and open files.  Every operation is written the way the kernel does
it and proved against a specification; the laws the kernel depends on are then proved of that
specification, for every input, every run or every reachable state.

Run `dafny verify dfyconfig.toml` in this directory to check everything.

## What is where

| files | system part |
|---|---|
| `Minix`, `Sets`, `Wrappers` | the on-disk layout: blocks, 16-bit words, the 32-byte disk inode, the superblock; finite sets; `Option` |
| `RawDisk`, `KnownDisk` | the same by byte addresses, as C lays its structures out: what is read of any disk are the bytes at these addresses, and of one disk, given byte by byte, these numbers |
| `IdeQueue`, `Ide` | the disk driver's request queue: the protocol with the interrupt handler, and the linked queue itself |
| `BufferList`, `BufferCache` | the 128 buffers on their doubly linked list, most recently released first |
| `Bitmap` | the zone bitmap: `balloc`, `bfree`, `bzero` |
| `Files`, `FsState`, `Truncate`, `InodeRefs`, `InodeLayer` | block maps and file contents, ownership of zones, the inode table, `bmap`, `iread`, `iwrite`, `itrunc`, `iget` to `iput` |
| `Directory`, `Path`, `Links`, `FileIo` | directories as finite maps, path walks, link counts, `fread` and `fwrite` |
| `DirectoryBytes`, `VolumeState`, `VolumeCalls`, `Volume` | a mounted volume as a whole: what makes it sound, `sys_link` and `sys_unlink`, and every run of opens, closes, reads, writes, links, unlinks and chdirs |
| `VolumeSpec`, `VolumeViews` | the same calls as programs see them, on byte sequences and names, with what follows for whole runs; and that the volume does what is said there |
| `EmptyImage`, `FirstFile` | a concrete disk that satisfies the invariants, mounted and used; the same with a file |
| `Paging`, `Vmm`, `Isolation`, `Mmu`, `Exec`, `ExecStack` | the page stack, two-level page tables, address-space copy and growth, what programs see of memory and how the processor translates their addresses, exec's image and stack |
| `Processes`, `ProcTable`, `ProcessLaws` | fork, exit, wait, sleep, wakeup, kill and the scheduler; what each of them does to each field, and over whole runs |
| `Pipes`, `PipeRing` | the 512-byte ring with free-running 32-bit counters; one reader and one writer |
| `OpenFiles`, `FileTable`, `FileLaws` | the open-file table, descriptors and reference counts; what each call does to them, and over whole runs |
| `Machine` | processes, memory and open files together: which page belongs to whom over every run |
| `MachineSpec` | the same commands as they look from outside, on the process table, the open-file table and one memory per process, with what follows for whole runs |

## How to read the model

* Pointers are indices: a buffer, inode, file or process is its place in the kernel's array, a page is
  its frame number, NULL is -1.  Records the kernel updates in place live in arrays and class fields.
* Every class has a predicate `Valid()`, its invariant; every operation requires and ensures it.  The file
  system's is `FsState.Inv`: the zone map describes the zones in use (`Bitmap.Quiet`, `Bitmap.Image`),
  the ghost map `owner` gives each zone in use its one place in one inode (`Files.Owned`), the inode
  table agrees with the disk (`FsState.InodeTable`), and no zone in use has a stale cached copy
  (`FsState.Fresh`).  Memory's is `Paging.Apart`: `owner` gives each page frame its one use.  Two classes put
  the parts together: `Volume.Volume` adds a sound tree, right link counts and agreement of memory and disk
  (`VolumeState.Sound`), `Machine.Machine` says which process or pipe owns each page (`Machine.Owned`).  Their
  methods `Run` take any sequence of calls, require nothing but `Valid()`, and return, besides, the run of a
  simpler system that they are, command by command: `Volume.Volume.Run` one of `VolumeSpec`, where files are byte
  sequences and directories a map of entries, `Machine.Machine.Run` one of `MachineSpec`, where every process has
  a memory of its own.  A run ends at the first call that is not allowed where it stands (`Allowed`), and in
  `Volume.Volume.Run` at one that stops the kernel (`VolumeViews.Stops`).
* A memory maps addresses to words and to whether the program is let through (`Isolation.Cell`): both its
  directory entry and its table entry must have PTE_U and PTE_R, the processor's bit for writing.  No entry of a
  user page that the kernel makes has only one of the two; the guard page has neither.
* The conditions can be met: `EmptyImage.Boot` and `EmptyImage.FirstEntry` mount a concrete disk, walk to
  its root and make a directory entry, `FirstFile.WithFile` makes it a `Volume.Volume` with a file, on which
  `FirstFile` links, unlinks and changes directories, `Machine.Machine`'s constructor boots, `Exec.BootMemory`
  sets up memory, makes a process and forks it, and every transition system starts from its initial state.
* Integers are unbounded; widths that matter are written out: bytes, 16- and 32-bit words, the pipe's
  counters, pids, the link count.  Bit operations are arithmetic.
* `panic` and `assert` are preconditions of the operation that contains them and are discharged by its
  callers in the model.
* A disk transfer is one step for the buffer cache; `IdeQueue.CompletesAsAsked` is why that is right.
  The superblock is read afresh by every operation, as in the code.
* Atomicity.  System calls run with interrupts on (kern/syscall.c:141), and proc/proc.c:189-194 asks
  for atomic sleeping.  These are single steps of the model: testing a condition, a wakeup issued just
  before sleeping, and going to sleep; the append to the disk queue together with the start of an idle
  drive; exit from `cli` to the switch; one pass of wait's loop.  The claims about lost wakeups and
  liveness depend on it.  fork takes three steps, a pipe's read and write move byte by byte, and in `Links`
  sys_link and sys_unlink change the count and the directory in separate steps; over the file system they
  are whole calls.  exec, exit, close and pipe are one command each of `Machine`.
* The transition systems (`Processes`, `Pipes`, `OpenFiles`, `IdeQueue`, `Links`) have
  `Enabled`, `Next`, an invariant kept by every step, and theorems about `After(s, run)` for all runs,
  each with its own `IsRun` and `After`.  The classes beside them do the same steps with the kernel's
  loops: `Did(step)` says that a method's effect is exactly that step, which `ProcessLaws` and `FileLaws` give field
  by field, and `MachineSpec.TraceLeads` and
  `TraceOpens` that the runs of `Machine.Machine.Run` are runs of `Processes` and of `OpenFiles`, whose theorems
  hold of it.

## Results that differ from what one might expect

* `iwrite` inside the file's size never calls `iupdate`; when it fills a hole the new zone number exists
  in memory only.  `InodeLayer.FileSystem.Iwrite` gives the exact condition under which memory and disk
  still agree, `EmptyImage.HoleWriteDiverges` mounts a disk and writes a byte after which they do not,
  `Directory.HoleFreeWrite` says that files without holes never get there, and `Volume.Volume.Run` that no
  run of the calls makes a hole.
* O_RONLY is 0, so `!(omode & O_RONLY)` (fs/sysfile.c:351) is always 1: every file that was opened is
  writeable, a regular file opened to be read as well as a directory, which can only be opened with O_RONLY.
  fwrite does not ask what it writes.  `FirstFile.SpoilRoot` opens "/" with O_RONLY and writes an entry for an
  inode that does not exist; `Volume.Volume.Fwrite` says for every state and every write that the volume stays
  sound if and only if the inode is no directory or the bytes it gets pass `DirectoryBytes.Tidy`, and
  `Volume.Volume.Run` is about the runs in which every write to a directory does.
* `itrunc` clears the indirect table in its buffer and never writes it; the cached block is stale
  afterwards.  Nobody sees that, because the zone is free and `balloc` zeroes it before its next use.
* `kill(0)` finds a free slot, whose mark proc_alloc does not clear: `Processes.KillZeroMarksNewborn`
  is a run in which a process is born killed, `Processes.CleanStep` says exactly when a free slot gets the
  mark, and `Processes.NewbornsNotKilled` that without `kill(0)` no process is born killed.
* A killed writer leaves a full pipe without waking the reader (`Pipes.KilledWriterStrandsReader`);
  `Pipes.StrandedIff` says exactly when that happens, and `Pipes.OnlyKilledWriterLeavesBytes` that there is
  no other way.
* `sys_link("a", "a/b")` waits for a lock that it holds itself (`FirstFile.WaitsForItself`): `VolumeCalls.SysLink`
  says that this happens if and only if a proper prefix of the new path leads to the file
  (`PathWalk.MeetsPrefix`).
* `sys_chdir` to something that is no directory keeps its reference for ever (`FirstFile.ChdirToFile`), so that
  the inode can never be freed while the kernel runs: `Volume.Volume.Chdir`, `VolumeSpec.LostForGood` and the
  last clause of `Volume.Volume.Run`.
* The guard page below the stack is closed by exec and open in every forked child, because uvm_copy maps all
  pages with PTE_U: `Exec.ExecThenFork`.
* A program file that is linked below USER_BASE is loaded over physical memory: `Exec.LowSegment`.
* `kill(1)` marks init, which must not exit: `Processes.InitMarkedIff`.
* Link counts have eight bits and sys_link does not look: `Links.ManyLinksDangle` frees a file that has
  names, `Links.ExactIff` says that a count is spoilt exactly by raising 255.
* With exactly MAX_ARGC + 1 arguments exec's `ustack` is one word short; sys_exec never passes that many
  (proc/sysproc.c:41-44).

## Model

| member | source | states |
|---|---|---|
| Minix.InodeRoundTrip | inc/minix.h:35-50 | an inode written to its 32 bytes on disk reads back as it was; which bytes these are say RawDisk.InodeFields and KnownDisk.ReadIt |
| Minix.SetWordAt | inc/minix.h:76-83 | storing one 16-bit entry of a table block changes that entry and no other |
| RawDisk.SuperBlockAt | inc/minix.h:22-33 | the fields of the superblock are the pairs of bytes at their addresses in block 1, the lower byte first |
| RawDisk.InodeFields | inc/minix.h:35-50 | on every disk, what is read of an inode is, field by field and zone by zone, what its bytes are in the C structure at its place in the inode area |
| RawDisk.KindAt | inc/stat.h:13-25 | an inode is a directory or a character device exactly if the upper half of its second byte is 4 or 2 |
| RawDisk.FileBytes | fs/inode.c:250-287 | on every disk, byte i of a file is the byte at its address: in one of the seven zones of its inode or in one that the table in zone[7] names, zero in a hole |
| RawDisk.ZoneMark | fs/bitmap.c:36-55 | a data zone is in use exactly if its bit in the zone map is set, counted in bits of bytes behind the inode map; the first data zone has bit 1 |
| RawDisk.InodeMark | fs/bitmap.c:139-142 | an inode is in use exactly if bit `ino` of the inode map is set |
| RawDisk.EntryAt | inc/minix.h:86-89 | a directory entry is a number of two bytes and then the characters of a name, up to a zero or fourteen |
| BufferList.UnlinkRemoves | fs/bcache.c:96-97 | taking a buffer out leaves a well-linked cycle over exactly the others, in the same order |
| BufferList.InsertFirstPrepends | fs/bcache.c:29-33 | linking a buffer in behind the head gives a well-linked cycle that starts with it |
| BufferList.MoveToFrontArranges | fs/bcache.c:92-104 | after a release the list still holds each of the NBUF buffers exactly once |
| BufferCache.IdleExists | fs/bcache.c:61-69 | with fewer than NBUF buffers in use the search for a victim finds one, so the panic is not reached |
| BufferCache.RoomForOperation | fs/bcache.c:41-71 | with fewer than NBUF / 2 operations at work, each holding at most two buffers, one more finds the two it needs |
| BufferCache.ReleaseCoherent | fs/bcache.c:92-104 | no block is cached twice and idle copies equal the disk, except for the block a holder changed without writing |
| BufferCache.ReleaseOrdered | fs/bcache.c:92-104 | the list stays ordered from the latest to the oldest release |
| BufferCache.OldestIdle | fs/bcache.c:61-68 | the first idle buffer from the tail is the idle one that was released longest ago |
| BufferCache.BufferCache.constructor | fs/bcache.c:24-35 | the list is a well-linked cycle over all NBUF buffers, none of which caches anything |
| BufferCache.BufferCache.Lookup | fs/bcache.c:46-57 | the cached copy of the block if there is one, otherwise the head |
| BufferCache.BufferCache.Victim | fs/bcache.c:61-69 | the idle buffer released longest ago |
| BufferCache.BufferCache.Bget | fs/bcache.c:41-71 | a cached copy is taken, otherwise the idle buffer released longest ago is recycled; a caller that does not hold the block never waits |
| BufferCache.BufferCache.IdeRw | drv/ide.c:102-126 | a dirty buffer is written, a clean one read, and it is valid and clean afterwards |
| BufferCache.BufferCache.Bread | fs/bcache.c:74-81 | a busy buffer with what the disk holds, and the disk holds what the last bwrite stored |
| BufferCache.BufferCache.Bwrite | fs/bcache.c:84-89 | the holder's data becomes the disk's block and no other block changes |
| BufferCache.BufferCache.Brelse | fs/bcache.c:92-104 | the buffer is idle and first in the list; its block is stale exactly if its data differs from the disk |
| Bits.PutBitAt | fs/bitmap.c:45-50 | setting or clearing one bit of a byte changes that bit and no other |
| Bitmap.MarkZoneBit | fs/bitmap.c:45-52 | marking a zone changes the bit of that zone in the map and no other zone's |
| Bitmap.ScannedBlock | fs/bitmap.c:43-57 | what the inner scan found of one map block is true of the zone numbers it stands for |
| Bitmap.FullMeansNone | fs/bitmap.c:42-59 | a scan that found nothing has seen every zone in use |
| Bitmap.ClearBitIsZone | fs/bitmap.c:46-47 | the first clear bit belongs to a data zone that bfree accepts, on an image whose other bits are set |
| Bitmap.DataWriteKeepsImage | fs/bitmap.c:22-31 | writing a data zone changes neither the map nor the superblock |
| Bitmap.Bzero | fs/bitmap.c:22-31 | the block is zero on the disk, all others are as before |
| Bitmap.FirstClear | fs/bitmap.c:44-46 | the lowest clear bit within the limit, all below it set |
| Bitmap.ScanMapBlock | fs/bitmap.c:43-57 | one turn of the outer loop: the first free zone of this map block taken and zeroed, or the block is full |
| Bitmap.Balloc | fs/bitmap.c:34-61 | the lowest free zone: it was free, it is marked and zeroed, every zone below it is in use, nothing else changes and the cache is no longer stale for it |
| Bitmap.Bfree | fs/bitmap.c:63-86 | exactly this zone's bit is cleared; the assertions hold for a zone in use |
| Files.OwnedIsExclusive | fs/inode.c:250-287 | a zone is reachable by at most one path: two places that store the same zone are the same place |
| Files.AddZone | fs/inode.c:250-287 | storing a fresh zone in one empty place keeps every zone reachable by exactly one path, in the data area and marked |
| Files.FreeZoneUnreachable | fs/bitmap.c:34-61 | a data zone whose bit is clear is stored in no inode and no table |
| Files.FillDirect | fs/inode.c:257-264 | a fresh zeroed zone in a direct place: ownership holds and every file reads as before |
| Files.FillTable | fs/inode.c:268-271 | a fresh zeroed indirect table: ownership holds and every file reads as before |
| Files.FillEntry | fs/inode.c:275-284 | a fresh zone stored in the table's block: ownership holds and every file reads as before |
| Files.WriteBlock | fs/inode.c:359-365 | writing one block of a file changes the bytes of that block of that file only |
| FsState.MapPays | fs/inode.c:250-287 | each mapped block leaves enough free zones for the rest of the range, so an operation that starts with enough never runs out |
| FsState.InodeChanges | fs/inode.c:250-287 | the inode itself changes exactly when bmap fills one of its places for the first time |
| FsState.InodeStoredReads | fs/inode.c:80-103 | after iupdate the inode reads back as stored and every other inode on the disk is as before |
| FsState.SplicedByte | fs/inode.c:359-365 | which bytes of the file a chunk within one block replaces |
| FsState.WrittenContents | fs/inode.c:359-372 | all chunks stored and the size raised give the old bytes overwritten at the offset |
| FsState.OverwrittenByte | fs/inode.c:359-372 | which byte each place of an overwritten file has |
| Truncate.NotYetFreed | fs/inode.c:111-149 | itrunc never frees a zone twice: the zone it frees next is not among those freed so far |
| Truncate.OthersNotOwned | fs/inode.c:111-149 | no zone that itrunc frees is stored by another inode |
| Truncate.TruncStep | fs/inode.c:111-149 | once exactly the inode's zones are free and the inode is empty the invariant holds again, although the table's cached block is stale |
| Truncate.TruncatedFields | fs/inode.c:145-148 | size, direct zones and table are gone from the inode and every other field is as before |
| InodeRefs.CountUp | fs/inode.c:33-59 | changing one slot of the inode table changes one inode's reference count by that much and no other's |
| InodeRefs.LoadStep | fs/inode.c:205-225 | what ilock reads from the disk is the inode's current value |
| InodeRefs.DropStep | fs/inode.c:163-180 | a slot may be given up when the disk has the inode's current value |
| InodeRefs.FreeInodeStep | fs/bitmap.c:127-147 | freeing an inode clears its bit and touches nothing that any file depends on |
| InodeLayer.FileSystem.constructor | fs/inode.c:26-28 | with no inode in memory the file system's invariant holds of a mountable image |
| InodeLayer.FileSystem.AllocDirect | fs/inode.c:257-264 | bmap's direct case with an empty place |
| InodeLayer.FileSystem.AllocTable | fs/inode.c:268-271 | bmap's table, allocated and zeroed |
| InodeLayer.FileSystem.MapEntry | fs/inode.c:275-286 | an entry of the table, allocated if it was empty, while the table's buffer is held and balloc uses a second one |
| InodeLayer.FileSystem.Bmap | fs/inode.c:250-287 | the block's zone; at most fresh zeroed zones are added to this inode, every file reads as before, and only the zones that were missing are taken |
| InodeLayer.FileSystem.Iread | fs/inode.c:290-334 | exactly the slice of the file's bytes at the offset, clipped to its size; no file's bytes change, and the inode changes exactly if a direct place or the table was missing |
| KnownDisk.ReadFile | fs/inode.c:290-334 | iget, ilock and iread on any mounted disk: the fields of the inode are those at its address, and the bytes read are those at their addresses, clipped to the size at its address |
| KnownDisk.ReadIt | fs/inode.c:186-334 | a disk that is given byte by byte, mounted: ilock of inode 2 gives these fields, iread at 0 the four bytes in zone 13 through zone[0], and iread at 314368 those in zone 260 through entry 300 of the table in zone 6 |
| InodeLayer.FileSystem.ReadChunk | fs/inode.c:317-331 | one turn of the loop yields the file's bytes at that offset within one block |
| InodeLayer.FileSystem.WriteRound | fs/inode.c:359-365 | one turn of iwrite's loop extends what has been written by one chunk and keeps all other bytes |
| InodeLayer.FileSystem.Enlarge | fs/inode.c:369-372 | the size is raised in memory and on the disk |
| InodeLayer.FileSystem.Iwrite | fs/inode.c:337-375 | the file's bytes become the old ones overwritten at the offset and its size the larger of the two ends; no other file changes, nor the disk copy of any other inode; memory and disk agree afterwards if and only if the size grew or no place was filled for the first time |
| InodeLayer.FileSystem.Iupdate | fs/inode.c:80-103 | the disk has the inode's current value and every other inode is as before |
| InodeLayer.FileSystem.SetLinks | fs/sysfile.c:145-146 | the inode's link count, in memory and on the disk, and nothing else |
| InodeLayer.FileSystem.FreeDirect | fs/inode.c:121-126 | itrunc's first loop frees exactly the direct zones |
| InodeLayer.FileSystem.FreeEntries | fs/inode.c:132-139 | itrunc's second loop frees exactly the zones in the table |
| InodeLayer.FileSystem.FreeIndirect | fs/inode.c:129-143 | the table's zones and the table itself are freed; only its cached block is stale |
| InodeLayer.FileSystem.Itrunc | fs/inode.c:111-149 | exactly the zones the inode owned become free, the inode is empty in memory and on the disk, every other file reads as before and every other inode on the disk is as before |
| InodeLayer.FileSystem.Iget | fs/inode.c:33-59 | a slot for the inode with one more reference, the cached one if there is one; no inode is in the table twice |
| InodeLayer.FileSystem.Idup | fs/inode.c:152-156 | one more reference and nothing else |
| InodeLayer.FileSystem.Ilock | fs/inode.c:186-226 | the inode is locked and in memory, with the value it has on the disk unless memory already had it |
| InodeLayer.FileSystem.Iunlock | fs/inode.c:229-237 | the lock is given up and nothing else changes |
| InodeLayer.FileSystem.Ifree | fs/bitmap.c:127-147 | exactly the inode's bit is cleared |
| InodeLayer.FileSystem.Iput | fs/inode.c:163-180 | one reference fewer; if it was the last one of an inode without links, exactly its zones and its inode bit become free, every other file reads as before and every other inode on the disk is as before; otherwise nothing else changes |
| DirEntries.CStringIs | libs/string.c:84-94 | comparing a stored name compares the characters before its first zero |
| DirEntries.BindingsIsMap | fs/dir.c:15-48 | a directory whose live names differ is exactly one finite map from names to inode numbers |
| DirEntries.MapUnique | fs/dir.c:15-48 | a directory is at most one such map |
| DirEntries.OverwriteSlot | fs/dir.c:83-88 | writing one entry at a slot's offset replaces that slot and no other, and the size stays a multiple of the entry size |
| DirEntries.LinkAdds | fs/dir.c:54-91 | filling a free slot, or a new one at the end, with an unbound name adds exactly that binding and keeps names unique |
| DirEntries.ClearRemoves | fs/sysfile.c:211-214 | zeroing a slot removes exactly its binding |
| Directory.HoleFreeWrite | fs/inode.c:337-375 | a file without holes stays without holes whatever is written to it, and its disk inode keeps agreeing with memory |
| Directory.ReadEntry | fs/dir.c:24-26 | the sixteen bytes of one slot, with nothing changed |
| Directory.FindSlot | fs/dir.c:23-43 | the offset of the slot that binds the name, or the directory's size if none does |
| Directory.DirLookup | fs/dir.c:15-48 | found if and only if the name is bound; then the bound inode with one more reference and the slot's offset, otherwise nothing changes |
| Directory.FindFree | fs/dir.c:73-82 | the first free slot, or the end |
| Directory.DirLink | fs/dir.c:54-91 | refused if and only if the name was bound, with nothing changed; otherwise, if there is room for an entry, exactly one binding is added, in the first free slot or at the end, and no other file and no other inode on the disk changes; without room the write stops the kernel; all reference counts are as before |
| Directory.ClearSlot | fs/sysfile.c:211-214 | exactly the binding that dir_lookup found goes and the size stays; no other file and no other inode on the disk changes |
| PathNames.ElementIs | fs/p2i.c:34-39 | an element is the longest piece of the path without a slash |
| PathNames.SkipElem | fs/p2i.c:23-51 | the first component, cut to NAME_LEN characters, and a shorter path that has exactly the remaining ones, or nothing when there are none |
| PathNames.OneComponent | fs/p2i.c:23-51 | a path without a slash is its own one component |
| PathNames.ComponentsJoin | fs/p2i.c:23-51 | two paths with a slash between them have the components of the first and then those of the second |
| PathWalk.MeetsPrefix | fs/p2i.c:64-85 | the walk has to lock an inode if and only if a proper prefix of the path leads to it |
| PathWalk.ParentThenLast | fs/p2i.c:53-103 | resolving a path is resolving its parent and then its last component in that directory |
| PathWalk.Descend | fs/p2i.c:64-85 | one step of the walk moves the one extra reference from the directory to the named child and leaves no lock |
| PathWalk.Path2Inode | fs/p2i.c:53-93 | the walk starts at inode 1 if the first character is a slash and at the working directory otherwise; the result is the recursive resolution of the path's components from there; on success the only change of reference counts is one more on the result, on failure there is none; the caller's locks stay and no other does, the disk and all inodes are as before, and parent mode leaves the last component in the name; the walk waits for its own caller for ever if and only if it passes through an inode that the caller has locked |
| Links.NamedHasCount | fs/sysfile.c:204-205 | the assertion of sys_unlink: a named file's count is not 0 |
| Links.StepKeepsInv | fs/sysfile.c:139-172 | with counts below the limit, count, entries and calls in progress stay in step |
| Links.ExactIff | fs/sysfile.c:145-146 | a step spoils the counts if and only if sys_link raises one that is at 255 |
| Links.NoDanglingEntries | fs/sysfile.c:124-235 | in every run of links and unlinks in which no count at 255 is raised, no file is freed while an entry names it |
| Links.ManyLinksDangle | fs/sysfile.c:145-146 | a run that makes 256 links and then frees the file under its names |
| FileIo.OpenFile.Fread | fs/file.c:73-97 | the file's bytes from the shared offset on; the offset moves past them, the file, every other slot of the inode table and all reference counts are as before |
| FileIo.OpenFile.Fwrite | fs/file.c:99-127 | the file's bytes are overwritten at the shared offset, which moves past them; the kernel stops if and only if the file would get too large or the zones run out; no other file, slot or inode on the disk changes |
| FileIo.TwoWrites | fs/file.c:99-127 | two overwritings, the second where the first ended, are one overwriting by both pieces, with no other file changed |
| FileIo.WriteInTurn | fs/file.c:99-127 | two writes through one shared offset, by one program or by two, leave the file overwritten by both pieces |
| VolumeState.TreeKept | fs/dir.c:15-48 | an inode that changes alone, and stays a good directory if it was one, leaves the tree well formed: names differ, and every named inode exists and has links |
| VolumeState.EntryAdded | fs/dir.c:54-91 | one more binding in one directory is one more entry of the whole volume |
| VolumeState.EntryRemoved | fs/sysfile.c:211-214 | one binding fewer in one directory is one entry of the whole volume fewer |
| DirectoryBytes.TidyIff | fs/dir.c:15-48 | a test of bytes, slot by slot, that says exactly when they are a directory that names only inodes with links and each file as often as the old one |
| DirectoryBytes.BoundBelowIs | fs/dir.c:23-43 | an inode has as many names in a directory as there are slots for it |
| DirectoryBytes.ReboundNames | fs/dir.c:15-48 | when one directory is rewritten, a file has as many names in the volume as before if and only if it has as many in that directory |
| VolumeState.CacheKept | fs/inode.c:80-103 | one inode that changes in memory and on the disk leaves every other slot of the inode table in step with the disk and the inode bitmap right |
| VolumeCalls.SameWalk | fs/p2i.c:53-93 | every path leads where it led, as long as the entries and the types of the inodes are the same |
| VolumeCalls.Lock | fs/inode.c:186-226 | ilock keeps the volume sound |
| VolumeCalls.Put | fs/inode.c:163-180 | iput keeps the volume sound and every entry; it frees the inode, with exactly its zones, if and only if it is the last use of an inode without links |
| VolumeCalls.SetCount | fs/sysfile.c:145-146 | the link count changes in memory and on the disk, and no entry, file or directory does |
| VolumeCalls.AddEntry | fs/dir.c:54-91 | in a sound volume dir_link adds exactly one entry; it is refused if and only if the place is taken, and stops the kernel if and only if the directory has no room |
| VolumeCalls.RemoveEntry | fs/sysfile.c:211-214 | in a sound volume exactly one entry goes, the one that was found, and no other file changes |
| VolumeCalls.Find | fs/p2i.c:96-103 | p2i and p2ip leave the volume sound, with one reference more, to what the path leads to from the root or from the working directory, or none |
| VolumeCalls.SysLink | fs/sysfile.c:124-172 | exactly one entry more, for the file the old path leads to, or everything as before; each way the call can end has its exact condition, and the kernel waits for itself if and only if the new path passes through the file |
| VolumeCalls.SysUnlink | fs/sysfile.c:174-235 | exactly the entry the path leads to goes; the file is freed only if that was its last name and nobody uses it; otherwise refused with the disk as it was |
| Volume.DirectoryWritten | fs/inode.c:337-375 | after bytes are written over a directory the tree and the link counts are right if and only if the bytes pass the test |
| Volume.WrittenSound | fs/file.c:99-127 | a write to any open inode leaves a sound volume if and only if that is no directory or the bytes pass the test |
| VolumeViews.WalkIs | fs/p2i.c:53-93 | where a path leads, and what it passes, depends only on the entries and on which inodes are directories |
| VolumeViews.LinkSeen | fs/sysfile.c:124-172 | what sys_link does to the disk is, to programs, one entry more or nothing |
| VolumeViews.UnlinkSeen | fs/sysfile.c:174-235 | what sys_unlink does is one entry less, and the file's bytes gone if and only if nobody has it or can find it |
| VolumeViews.WriteSeen | fs/file.c:99-127 | what fwrite does is the file's bytes overwritten and its offset moved |
| VolumeViews.CloseSeen | fs/file.c:42-59 | what the last close does is one open file less, and its bytes gone if and only if nobody has it or can find it |
| Volume.Volume.constructor | fs/inode.c:26-28 | a sound volume with a working directory and no open file |
| Volume.Volume.CloseFile | fs/file.c:42-59 | the file goes from the open ones; the inode is freed if and only if this was the last use of one without links, no entry changes, and the volume stays sound |
| Volume.Volume.Fread | fs/file.c:73-97 | in a sound volume a read needs no zones: the bytes from the offset on, and nothing else changes |
| Volume.Volume.Fwrite | fs/file.c:99-127 | the bytes are overwritten at the offset, of a file or of a directory, and no other file changes; the kernel stops if and only if the disk or the file is full; the volume stays sound if and only if the inode is no directory, or the spliced bytes are again whole slots with differing names that lead to inodes with links and name every file as often as before |
| Volume.Volume.Link | fs/sysfile.c:124-172 | sys_link keeps the volume sound, with all open files |
| Volume.Volume.Unlink | fs/sysfile.c:174-235 | sys_unlink keeps the volume sound; every open file reads as before, also one that lost its last name |
| Volume.Volume.Open | fs/sysfile.c:307-354 | opens what the path leads to if and only if there is something and it is no directory or the mode is O_RONLY; the file is readable unless the mode has O_WONLY and always writeable, since O_RONLY is 0; a refused open leaves no reference behind |
| Volume.Volume.Chdir | fs/sysfile.c:394-420 | the working directory changes if and only if the path leads to a directory; a path that leads to something else leaves one reference more to exactly that inode, which nobody gives back |
| Volume.Volume.Run | fs/sysfile.c:59-420 | over every run of opens, closes, reads, writes, links, unlinks and chdirs, up to the first call that is not allowed there (a write that spoils a directory, say) or that stops the kernel, which happens exactly for the reasons in `VolumeViews.Stops`: the tree is well formed, no file has holes, memory and disk agree, the link counts of files are the numbers of their names, every reference to an inode is an open file's, the working directory's, or was leaked by chdir; inodes with leaked references are never freed; and the run is one of VolumeSpec, each call doing to files, entries, offsets and results exactly what is said there |
| VolumeSpec.ReadsLastWrite | fs/file.c:73-127 | over every run: a byte that a read returns is the one that the last write before it stored at that place of the file, by whatever names and descriptors the two went |
| VolumeSpec.ReadsFirstByte | fs/file.c:73-127 | and if no write did, it is the one the run began with |
| VolumeSpec.GoneStays | fs/inode.c:163-180 | a file that has no name and no user is never in use again |
| VolumeSpec.LostForGood | fs/sysfile.c:394-420 | over every run an inode whose reference chdir leaked stays in use |
| VolumeSpec.FromTheRoot | fs/p2i.c:57-61 | a path that begins with a slash leads to the same, whatever the working directory: where the rest of it leads from inode 1 |
| VolumeSpec.FromHere | fs/p2i.c:57-61 | an empty path, or one that begins with anything else, leads where its components lead from the working directory |
| VolumeSpec.ThroughDirectory | fs/p2i.c:53-93 | from the directory that a path leads to, q leads where path/q leads from here |
| VolumeSpec.ChdirThenFind | fs/sysfile.c:394-420 | after a chdir a path that begins with a slash leads where it led, and any other one where it led behind the path of the directory |
| VolumeSpec.OpenThenRead | fs/sysfile.c:337-353 | a file that was opened is the one the path leads to, and is read from its beginning, unless it was opened for writing only |
| VolumeSpec.ReadOn | fs/file.c:73-97 | two reads of a file, one after the other, get what one read of both lengths would have got |
| VolumeSpec.OpenThenWrite | fs/file.c:99-127 | a write to a file that was opened goes over its beginning, keeps the rest and no other file changes |
| VolumeSpec.LinkThenFind | fs/sysfile.c:124-172 | after a link the new path leads to the file |
| VolumeSpec.UnlinkThenGone | fs/sysfile.c:174-235 | after an unlink the path leads nowhere |
| FirstFile.WithFile | fs/sysfile.c:298-304 | a mounted volume with a file "a", named as create names a new one, so the runs of Volume.Volume.Run have a beginning with something in it |
| FirstFile.WaitsForItself | fs/sysfile.c:134-150 | on a volume whose one file is "a", what sys_link does about link("a", "a/b") is to wait for a lock that it holds itself |
| FirstFile.LinkBelowItself | fs/sysfile.c:134-150 | and on a mounted volume with this one file the call does that |
| FirstFile.LinkAndUnlink | fs/sysfile.c:124-235 | link("a", "b") and unlink("a") leave exactly the entry "b" for the file |
| FirstFile.ChdirToFile | fs/sysfile.c:406-411 | chdir("a") is refused and leaks the file's reference |
| FirstFile.SpoilRoot | fs/sysfile.c:331-351 | open("/", O_RONLY) and a write of sixteen bytes leave a root directory with an entry for an inode that does not exist |
| EmptyImage.Mountable | Makefile:81 | the file system's invariant holds of a concrete twelve-block disk with an empty root directory and any second inode without zones |
| EmptyImage.Boot | proc/proc.c:140-140 | mounting that disk and walking to "/" finds the root directory |
| EmptyImage.FirstEntry | fs/sysfile.c:287-287 | linking "." in the new root directory makes it the map with that one binding |
| EmptyImage.Settle | proc/proc.c:140-140 | that disk with a file that has no name yet, mounted, is sound but for the file's count |
| EmptyImage.Mount | proc/proc.c:140-140 | that disk without a second inode, mounted, is a sound volume |
| EmptyImage.HoleWriteDiverges | fs/inode.c:367-372 | a mounted disk that holds a one-byte file with a hole: once the byte is written, the inode on the disk differs from the one in memory |
| Paging.ContentsWrite | mm/vmm.c:54-150 | the contents of a frame that is neither a directory nor a table matter to no mapping |
| Paging.AllocStep | mm/pmm.c:109-116 | the frame pmm_alloc hands out was used for nothing; with its new use all uses stay apart |
| Paging.HangTable | mm/vmm.c:79-83 | an empty table in an empty directory entry changes no mapping |
| Paging.SetMapping | mm/vmm.c:73-92 | writing one user table entry changes one page of one directory, and no other directory's |
| Paging.FreeStep | mm/pmm.c:118-125 | a frame nothing refers to goes back on the stack, which holds no frame twice and none in use |
| Paging.StackRoom | mm/pmm.c:118-125 | the stack never outgrows pmm_count, because a frame that is returned was not on it |
| Paging.RewriteIdentity | mm/vmm.c:139-150 | writing a kernel entry again leaves every address space as it is |
| Paging.SeesMemory | mm/vmm.c:139-150 | a complete kernel half maps every page of memory but page 0 to itself |
| Vmm.VmmInit | mm/vmm.c:54-71 | the shared kernel tables are the identity on all pages but page 0, and nothing else is written |
| Vmm.Memory.constructor | mm/pmm.c:74-107 | the stack holds each frame from the kernel's end to the end of memory once |
| Vmm.Memory.PmmAlloc | mm/pmm.c:109-116 | an unused frame, zeroed; no mapping and no memory in use changes |
| Vmm.Memory.PmmFree | mm/pmm.c:118-125 | the frame is free again and the assertion on the stack's height holds |
| Vmm.Memory.VmmMapUser | mm/vmm.c:73-92 | afterwards the page is mapped to the frame with these flags, every other page of every directory as before; a missing table costs one frame |
| Vmm.Memory.VmmUnmapUser | mm/vmm.c:94-109 | exactly this page's mapping is removed |
| Vmm.Memory.VmmGetMapping | mm/vmm.c:111-126 | succeeds if and only if the page is mapped, and gives its frame |
| Vmm.Memory.VmmMapKernel | mm/vmm.c:79-91 | a kernel page of one directory comes into view through the shared table; user pages and other directories are as before |
| Vmm.Memory.KvmInit | mm/vmm.c:139-150 | the directory maps all of memory but page 0 to itself; every other directory is as before |
| Vmm.Memory.UvmCopy | mm/vmm.c:217-239 | a new directory with a copy of each of the parent's pages and no other user page, in frames and tables of its own, all open to user programs in both entries, also the guard page that is closed in the parent; the assertion on the parent's mapping holds, the parent, its entries and all memory in use are as before, and exactly the frames needed are taken |
| Vmm.Memory.UvmAlloc | mm/vmm.c:241-258 | the pages between the sizes, none of which was mapped, are mapped to zeroed frames and open to user programs if those below are; pages below and all other directories are as before |
| Vmm.Memory.UvmFree | mm/vmm.c:200-215 | the directory and each of its user tables go back once, and nothing else in use changes |
| Vmm.Memory.AllocPlain | proc/proc.c:76-77 | a kernel stack or pipe page that was used for nothing |
| Vmm.Memory.FreePlain | proc/proc.c:240-242 | the page goes back and cannot be returned again |
| Isolation.EachAlone | mm/vmm.c:217-239 | over every run of stores by any programs a word of one of them holds what its own stores left, where it is let through, and no frame comes to be used twice |
| Isolation.NoInterference | mm/vmm.c:217-239 | what other programs store makes no difference to what a program reads |
| Isolation.ForkIsolation | mm/vmm.c:217-239 | where two address spaces agree, any later run leaves each with the common contents under its own stores alone |
| Isolation.MemoryKept | mm/vmm.c:111-126 | an address space with the same mappings and the same frames reads the same |
| Mmu.ReadsAsTranslated | inc/vmm.h:12-20 | in every state of memory, what a program is let through to is what the processor's own translation gives it, to read and to write: ten bits of the address, ten more, and the present, write and user bits of both entries; a page that is closed in its own entry cannot be read either |
| Exec.UvmLoad | mm/vmm.c:175-198 | its assertion on the mapping never fails; it succeeds if and only if the file has `size` bytes from the offset on, and then the pages hold exactly these bytes from addr on, what was there before in the rest of the last page, and no mapping changes |
| Exec.LoadProgram | proc/exec.c:79-98 | the program's pages are those from USER_BASE to the end of its image, which is that of the segment reaching highest, each mapped once, open to it, and holding the image's bytes; no other program's memory changes |
| Exec.EndReaches | proc/exec.c:92-94 | the image ends at USER_BASE or with one of the segments that are loaded, at its vaddr + memsz, and no segment that is loaded reaches beyond |
| Exec.ImageByte | proc/exec.c:79-98 | each byte of the image is the byte of the file for the last segment whose file part has the address, and zero where no file part goes |
| Exec.LowSegment | mm/vmm.c:175-198 | below USER_BASE uvm_load finds page frames under their own numbers: a page of a file that is linked at the frame of some program's page becomes that page |
| Exec.StackPages | proc/exec.c:104-120 | two more pages, of which, and of all below, exactly the lower one is closed to user programs; the upper one holds the arguments; neither lookup fails |
| Exec.ExecMemory | proc/exec.c:41-181 | succeeds if and only if every header loads and there are at most MAX_ARGC arguments; then exactly the pages below proc->size are mapped; the program can read every address of every segment from vaddr to vaddr + memsz, and gets there the byte of the last segment whose file part has the address, and zero where no file part goes; user memory at sp decodes to the arguments; of all its pages exactly the one below the stack is closed to it, and the old directory is returned; on failure the new one is; all other programs' mappings and memory are as before |
| Exec.ForkMemory | proc/proc.c:319-333 | the child's stack and directory are new, all of [USER_BASE, USER_BASE + size) is mapped in it, copied from the parent and open to the child, the parent is as before |
| Exec.ForkIsolates | mm/vmm.c:217-239 | after a fork, the child reads the parent's memory of that moment under its own later stores alone, and the parent reads, where it is let through, its own under its own |
| Exec.ExecThenFork | mm/vmm.c:217-239 | exec succeeds exactly when it should, and fork follows unless too few pages are left; the guard page of the program, the second one below the end of its memory, is closed to it, and open with the same contents to the child |
| Exec.ReapMemory | proc/proc.c:240-243 | a zombie's stack, directory and tables go back once each |
| ExecStack.ScanFinds | proc/exec.c:123-134 | reading bytes up to the first zero at an argument's address yields the argument |
| ExecStack.ArgumentsRead | proc/exec.c:123-145 | on a stack that decodes, what the program reads as argument i is argument i |
| ExecStack.MainSees | proc/exec.c:123-145 | on such a stack a main that is called with its return address at sp finds argc, and an argv that points at the addresses of copies of all arguments and a NULL |
| ExecStack.PushString | proc/exec.c:127-133 | sp and pa move down by the same amount, the string is at sp, and nothing above changes |
| ExecStack.BuildStack | proc/exec.c:116-145 | user memory at sp decodes to the unused return address, argc, the vector's address and the vector of exact copies, ended by NULL; refused if and only if there are more than MAX_ARGC arguments |
| Exec.FirstProgram | mm/vmm.c:153-168 | proc_init's address space: exactly one user page is mapped, and the program can read init's code in it |
| Exec.BootMemory | proc/proc.c:98-146 | from empty memory the tables are set up, the first process is made and forks, and the child's page holds init's code |
| Processes.StepKeepsInv | proc/proc.c:149-361 | every step keeps: one process RUNNING, live parents, no zombie waited for in vain, acyclic parent links |
| Processes.RunKeepsInv | proc/proc.c:149-361 | so does every run |
| Processes.ReachableStates | proc/proc.c:221-361 | in every reachable state at most one process is RUNNING, parent links of live processes and zombies lead to init, each has a parent that is neither unused nor a zombie, and a parent asleep in wait has no zombie child |
| Processes.ExitIsNoticed | proc/proc.c:281-299 | after an exit a parent asleep in wait is RUNABLE, and its next pass collects a child |
| Processes.RoundRobin | proc/proc.c:149-174 | a RUNABLE process gets the processor within NPROC switches, whatever the others do |
| Processes.EachTurnCloser | proc/proc.c:149-174 | nothing but the scheduler ends a process's being RUNABLE, and every switch to another brings the scan closer |
| Processes.ZombieKept | proc/proc.c:235-252 | a zombie stays one, with its pid, until wait collects it |
| Processes.CleanStep | proc/proc.c:303-317 | a step leaves a mark on a free slot if and only if kill finds a free slot, which only kill(0) can |
| Processes.NewbornsNotKilled | proc/proc.c:64-96 | in every run without kill(0) a new process starts out not killed |
| Processes.KillZeroMarksNewborn | proc/proc.c:303-317 | a run in which kill(0) makes the next process start out killed |
| Processes.InitMarkedIff | kern/timer.c:38-40 | init carries kill's mark, on which the timer calls exit and meets exit's assertion, if and only if its pid has been killed |
| ProcessLaws.DispatchDoes | proc/proc.c:149-174 | the scheduler runs the first RUNABLE process from where its scan stands, which then stands behind it; nothing else changes |
| ProcessLaws.YieldDoes | proc/proc.c:176-183 | the timer leaves the running process RUNABLE, and nothing else changes |
| ProcessLaws.SleepDoes | proc/proc.c:185-209 | the running process is asleep on the channel, and nothing else changes |
| ProcessLaws.WakeupDoes | proc/proc.c:211-219 | a process that sleeps on the channel is RUNABLE, and every other one as it was |
| ProcessLaws.SleepsUntilWoken | proc/proc.c:185-219 | over every run without a wakeup of its channel and a kill of its slot a sleeper sleeps on, and then the wakeup makes it RUNABLE |
| ProcessLaws.KillDoes | proc/proc.c:303-317 | kill marks the first slot with the pid; if it slept it is RUNABLE, otherwise its state is kept, and so are its pid, its parent and every other slot |
| ProcessLaws.KilledRuns | proc/proc.c:235-261 | over every run a killed process that is RUNABLE gets the processor within NPROC switches, still marked, and then wait does not let it sleep |
| ProcessLaws.KilledSleeperReturns | proc/proc.c:303-317 | so does one that is asleep, in wait or elsewhere, when it is killed |
| ProcessLaws.AllocDoes | proc/proc.c:64-96 | the first unused slot gets the pid one above the last, in eight bits, and nothing else changes |
| ProcessLaws.PidsCount | proc/proc.c:64-96 | over every run the pid of the next child is the number of children so far, counted on from the first state, in eight bits |
| ProcessLaws.AdoptDoes | proc/proc.c:343-343 | the child's parent is the running process |
| ProcessLaws.ForkEnds | proc/proc.c:357-360 | the child is RUNABLE, its parent and pid are kept, and the parent goes on running |
| ProcessLaws.ExitDoes | proc/proc.c:264-301 | exit, slot by slot: the process is a zombie, its children are its parent's, a parent asleep in wait is RUNABLE, and all else is kept |
| ProcessLaws.CollectDoes | proc/proc.c:235-252 | wait frees the slot of the first zombie child, with its pid, parent and mark, and nothing else changes |
| ProcessLaws.WaitDoes | proc/proc.c:254-261 | without a zombie child wait fails if and only if there is no child or the process was killed, and otherwise the process sleeps on itself |
| ProcTable.Kernel.constructor | proc/proc.c:98-146 | the table with the first process in slot 0 satisfies the invariant |
| ProcTable.Kernel.WakeupAll | proc/proc.c:211-219 | exactly the sleepers on the channel become RUNABLE |
| ProcTable.Kernel.ProcAlloc | proc/proc.c:64-96 | the first unused slot with the next 8-bit pid, or -1 and no change if all are used |
| ProcTable.Kernel.ForkParent | proc/proc.c:343-343 | the child gets its parent |
| ProcTable.Kernel.ForkReady | proc/proc.c:357-360 | the child becomes RUNABLE and its pid is returned |
| ProcTable.Kernel.Sched | proc/proc.c:176-183 | the running process becomes RUNABLE and the scheduler runs |
| ProcTable.Kernel.Sleep | proc/proc.c:185-209 | the running process sleeps on the channel |
| ProcTable.Kernel.DoExit | proc/proc.c:281-299 | the loop with its wakeups is exit's step: children go to the grandparent, which is woken, and the process is a zombie |
| ProcTable.Kernel.Wait | proc/proc.c:221-262 | the first zombie child is collected and its pid returned; with none, -1 if there are no children or the process was killed, sleep otherwise |
| ProcTable.Kernel.DoKill | proc/proc.c:303-317 | kill's step (ProcessLaws.KillDoes says which) at the first slot with the pid, or nothing changes if there is none |
| ProcTable.Kernel.Scheduler | proc/proc.c:149-174 | with some process RUNABLE the scan ends and switches to the first one from where it stands |
| Pipes.TestsAreRight | kern/pipe.c:63-91 | the comparisons of the 32-bit counters mean 512 bytes in flight and none |
| Pipes.SlotAcrossWrap | kern/pipe.c:70-70 | a byte's slot is the same on both sides of a counter's wrap |
| Pipes.PutAppends | kern/pipe.c:70-70 | storing a byte in a pipe that is not full appends it to the bytes in flight |
| Pipes.GetRemoves | kern/pipe.c:95-95 | taking a byte from a pipe that is not empty removes the oldest |
| Pipes.StepKeepsInv | kern/pipe.c:45-100 | every step keeps what was written equal to what was read and what is in flight, and gives every sleeper a reason or a waker |
| Pipes.EveryRun | kern/pipe.c:45-100 | in every run the bytes read are a prefix of the bytes written, at most 512 are in flight, reader and writer are never both asleep, and the page is freed at most once with nobody inside |
| Pipes.ClosedEnds | kern/pipe.c:45-58 | after one end is closed the other side never sleeps again and each of its steps brings its call closer to the end |
| Pipes.ReadGets | kern/pipe.c:90-96 | over every run from the beginning of a read, the caller's bytes are exactly those that came out of the pipe since then, in their order |
| Pipes.WriteStores | kern/pipe.c:62-71 | over every run from the beginning of a write, the bytes that went into the pipe since then are exactly a beginning of the caller's buffer |
| Pipes.EmptyReadIsEnd | kern/pipe.c:82-99 | a read that returns nothing although it wanted bytes has read everything ever written |
| Pipes.OnlyKilledWriterLeavesBytes | kern/pipe.c:60-75 | with the writer outside pipe_write and not killed, a sleeping reader has read everything |
| Pipes.StrandedIff | kern/pipe.c:60-75 | a writer that returns leaves a reader asleep beside bytes if and only if it was killed and met a full pipe |
| Pipes.KilledWriterStrandsReader | kern/pipe.c:64-66 | a run in which a killed writer returns from a full pipe and the reader sleeps on |
| PipeRing.Ring.WriteSome | kern/pipe.c:62-71 | the loop appends exactly the bytes it stores, and stops only at the end or when 512 are in flight |
| PipeRing.Ring.ReadSome | kern/pipe.c:90-96 | the loop returns the oldest bytes, as many as wanted and present, and leaves the rest |
| PipeRing.Ring.Close | kern/pipe.c:45-58 | one end closes; the page is freed if and only if both are closed (the wakeup is Machine.Machine.CloseFd's) |
| OpenFiles.CountBound | fs/file.c:35-40 | no file has more descriptors than there are |
| OpenFiles.StepKeepsInv | fs/file.c:23-59 | every open, dup, close and pipe keeps counts equal to descriptors and open pipe ends equal to files |
| OpenFiles.EveryRun | fs/file.c:23-59 | in every run a file's count is the number of its descriptors over all processes and at most 16384, a file exists exactly while it has one, a pipe's page exactly while a descriptor is on the pipe, and nobody is inside a read or write of a freed page |
| OpenFiles.FreedByLastClose | kern/pipe.c:55-57 | a pipe's page is freed by exactly one step, the close of the last descriptor on it |
| FileLaws.OpenDoes | fs/sysfile.c:337-353 | a free descriptor refers to a free file, which is on exactly the inode that was opened; no other descriptor and no other file changes |
| FileLaws.PipeDoes | fs/sysfile.c:422-451 | two free descriptors refer to two free files, the first to read from the new pipe and the second to write to it; no other descriptor, file and pipe changes |
| FileLaws.AttachDoes | fs/file.c:35-40 | dup and fork: one more descriptor for the same file, which stays on what it is on |
| FileLaws.CloseDoes | fs/file.c:42-59 | the descriptor is free, its file has one reference fewer and is free with the last one; nothing else changes |
| FileLaws.LastEndDoes | kern/pipe.c:45-58 | the last close of one end of a pipe closes this end and no other, and the pipe goes with its second end |
| FileLaws.StaysOpen | fs/file.c:23-59 | over every run a descriptor that is not closed stays on its file, and the file on the inode or pipe it was opened on |
| FileLaws.LastCloseHandsOn | fs/file.c:42-59 | over every run from an open to the last close of its file, through whatever descriptors, the file is on the inode that was opened, and exactly this inode is what the last close hands on to iput |
| FileTable.Files.OpenInode | fs/sysfile.c:337-353 | a new file on exactly this inode with one descriptor, the lowest free one, or -1 and no change if there is no file or no descriptor left |
| FileTable.Files.SysPipe | fs/sysfile.c:422-451 | two new files on the new page with the two lowest free descriptors, the first to read from it and the second to write to it, or, when there are not two, everything as before |
| FileTable.Files.SysDup | fs/sysfile.c:59-73 | the lowest free descriptor refers to the same file, whose count goes up by one, or -1 and no change |
| FileTable.Files.Fclose | fs/file.c:42-59 | one reference fewer; with the last one the file is free and its end of the pipe closed, and the caller is told which inode or pipe end is left to put or to wake |
| FileTable.Files.SysClose | fs/sysfile.c:99-110 | the descriptor is free and its file closed once, or -1 and no change if it was not open |
| FileTable.Files.ForkFiles | proc/proc.c:348-352 | the child's descriptors are the parent's, and every file they share counts them; the loop is a run of the open-file table's steps |
| Machine.StepKeepsOwners | proc/proc.c:149-361 | no step of the process table but fork's and wait's collection changes which slots own a kernel stack and an address space |
| Machine.StackTaken | proc/proc.c:64-96 | a free slot that gets an unused page as its stack leaves every page with one owner |
| Machine.SpaceChanged | proc/proc.c:319-341 | a slot that gets a new directory, for none or for its old one, leaves every directory with one owner |
| Machine.SlotReaped | proc/proc.c:235-252 | once a zombie's slot is free, its stack and its directory belong to nobody |
| Machine.Machine.constructor | proc/proc.c:98-146 | after boot the first process owns its stack and its directory, in which it can read init's code, and nothing else is owned |
| Machine.Machine.ForkAlloc | proc/proc.c:64-96 | the first unused slot gets a page nobody owned as its kernel stack, or all slots are in use and nothing changes |
| Machine.Machine.ForkCopy | proc/proc.c:331-343 | uvm_copy's assertion holds: the child gets its own copy of the parent's memory |
| Machine.Machine.ForkDone | proc/proc.c:348-361 | the child gets the parent's descriptors, every one of them one more reference to its file, which stay its own afterwards, and becomes RUNABLE |
| Machine.Machine.DoExec | proc/exec.c:41-181 | on success the process owns a new address space, in which it can read every byte of every segment of the program and its arguments, and its old one is returned, on failure it keeps what it had; every other process keeps its own |
| Machine.Machine.DoExit | proc/proc.c:264-301 | every descriptor is closed; of all other processes exactly those are woken that sleep on the other side of a pipe's end which goes with it, and a parent asleep in wait; pages of pipes that lost their last descriptor are returned, and the zombie keeps its stack and its address space |
| Machine.Machine.Wait | proc/proc.c:221-262 | a collected child's stack and directory were still its own and are returned; otherwise -1 or asleep, with no page returned |
| Machine.Machine.CloseFd | fs/sysfile.c:99-110 | the descriptor is closed; the last one of a pipe's end wakes exactly the sleepers of the other end, and the last one of the pipe returns its page, which was still the pipe's |
| Machine.Machine.SysPipe | fs/sysfile.c:422-451 | two descriptors on a page nobody owned, or, when there are not two, everything as before and the page returned |
| Machine.Machine.Store | mm/vmm.c:111-126 | a program's store goes to its own page or, where nothing is mapped or the page is closed to it, nowhere |
| Machine.Machine.Do | proc/proc.c:149-361 | every allowed call keeps the owners of all pages, and does to the process table, to open files and to the memory of every process exactly what `MachineSpec.Step` says of it: which slot, which child, which descriptors, which file, and of the memories only that of the storing program, the new child, the loading program or the collected one |
| Machine.Machine.Run | proc/proc.c:149-361 | over every run of scheduling, fork, exec, exit, wait, kill, open, dup, close, pipe and stores, up to the first call that is not allowed there: every stack, directory, table, user page and pipe page has one owner, every page below a process's size is mapped, so no page is returned twice and uvm_copy never meets an unmapped one; and the moments before and after each command are a run of MachineSpec for these commands |
| MachineSpec.WordKept | proc/proc.c:149-361 | over every run of commands: a word of a process, and whether it is mapped, changes only by its own store there, its own exec, the fork that copies to it and the wait that collects it |
| MachineSpec.ReadsOwnStore | mm/vmm.c:111-126 | over every run: what a process stored last at a word it can use is there, whatever the others store, fork, load and leave behind meanwhile |
| MachineSpec.ForkedApart | mm/vmm.c:217-239 | over every run after a fork: child and parent each keep the words of the fork that they do not change themselves |
| MachineSpec.ProgramByte | proc/exec.c:79-98 | what exec makes of a process's memory: every byte of every segment can be read, and is that of the last file part which has the address, or zero |
| MachineSpec.CloseWakes | kern/pipe.c:45-58 | the last close of an end of a pipe makes RUNABLE exactly who sleeps on the address of nread, if it was the end to write to, or of nwrite |
| MachineSpec.ExitWakes | proc/proc.c:270-276 | exit does so for each end that goes with its last descriptor |
| MachineSpec.StoreIsOwn | mm/vmm.c:111-126 | a store changes nothing in the memory of any other process |
| MachineSpec.TraceLeads | proc/proc.c:149-361 | every run of commands is a run of Processes, whose theorems so hold of it |
| MachineSpec.TraceOpens | fs/sysfile.c:59-451 | and one of OpenFiles |
| Machine.Machine.OneUse | mm/pmm.c:109-125 | a page frame has at most one use: place on the free stack, kernel stack, directory, table or page of one process, or page of a pipe |
| IdeQueue.StepKeepsInv | drv/ide.c:72-126 | only the head of the queue has been started, each request is for its own block and untouched, and whoever left the queue is valid and clean |
| IdeQueue.NeverStuck | drv/ide.c:72-93 | while requests are queued the drive has a command, so an interrupt comes |
| IdeQueue.CompletesAsAsked | drv/ide.c:72-93 | the oldest request is done in the direction its dirty flag gave when it was queued, with the data of then, as if it had been one step; no other block and buffer changes |
| IdeQueue.FirstComeFirstServed | drv/ide.c:72-126 | in every run requests complete in the order of queueing, one by each interrupt |
| IdeQueue.ServedInTurn | drv/ide.c:102-126 | a request with n before it is complete after n + 1 interrupts |
| Ide.Driver.Append | drv/ide.c:108-115 | the loop links the buffer in at the end of the queue |
| Ide.Driver.IdeRw | drv/ide.c:102-120 | the request is queued last and started if and only if it is the only one |
| Ide.Driver.IdeHandler | drv/ide.c:72-93 | the head is completed and removed and the next one started; without a request nothing changes |
| Ide.Driver.Poll | drv/ide.c:122-126 | the waiting loop ends exactly when the request has left the queue, with the buffer valid and clean |

## Left out

- BufferCache.BufferCache.Bget: a block that somebody else has busy, for which the code starts over until it is free, is excluded.
- BufferCache.BufferCache.Bread: a block that somebody else has busy is excluded, as in Bget.
- Bitmap.Balloc: a free zone is required; without one the code panics.
- InodeLayer.FileSystem.Iput: dropping the last reference of an inode that has links requires that the disk has its current value, which the code does not ensure for a file whose hole was filled (see Iwrite); Volume.Volume.Run establishes it for files without holes.
- InodeLayer.FileSystem.Iread: a read at an offset past the size, and iwrite past it or past the largest file, panic in the code and are excluded by the precondition; the offset of an open file in Volume.Volume is never past the size.
- InodeLayer.FileSystem.Ilock: waiting for a lock somebody else holds, a bounded busy loop that ends in an assertion, is excluded; file-system operations of different processes do not interleave in the model.
- InodeLayer.FileSystem.Iget: reference counts are unbounded; the code's have 16 bits.
- InodeLayer.FileSystem.Ifree: the code takes byte `ino / 8` of one bitmap block without reducing it to the block (fs/bitmap.c:140), so the byte exists if and only if `ino < 8 * BSIZE`, that is 8192; numbers from 8192 on are excluded, and so is `ino == sb.ninodes`, the last inode of the table, on which the assertion of fs/bitmap.c:137 fails.  A sound volume (`VolumeState.Freeable`) has no such inode in use.
- Directory.DirLookup: the directory has no holes and its live names differ, which every operation of Volume.Volume keeps but a write that spoils a directory; no other operation holds more buffers than leave two free.
- Directory.DirLink: names of 14 characters and more, where strncpy writes its terminator behind the field, are excluded.
- PathWalk.Path2Inode: the path's names are shorter than NAME_LEN and two slots of the inode table are free; the tree is well formed and no lock but the caller's is held, which every operation of Volume.Volume keeps but a write that spoils a directory.
- VolumeCalls.SysLink: at a link count of 255 the model stops (`CountFull`), where the code goes on with 0; Links.ManyLinksDangle shows where that leads.
- VolumeCalls.SysUnlink: a directory is refused as one that is not empty; the removal of an empty one, and with it the link counts of directories, is left out.
- FileIo.OpenFile.Fread: an offset past the size, where iread panics, is excluded; every write leaves the offset inside the file.
- EmptyImage.Mountable: the disk is a small one of twelve blocks, not the one that mkfs writes.
- Vmm.Memory.UvmFree: the pages that were mapped are not returned, as in the code, so there is no claim that memory is never lost.
- Vmm.Memory.constructor: one block of memory of at most 512 MB above the kernel, as the boot map gives it; a larger one is cut in the code.
- Vmm.Memory.PmmAlloc: a free page is required; without one the code reads below its stack.
- Vmm.Memory.VmmMapUser: the frame was allocated for this page; the code maps any frame, and its callers map only new ones or the page's own.
- Vmm.Memory.VmmUnmapUser: user addresses only; nothing in the kernel unmaps others.
- Vmm.Memory.VmmMapKernel: kernel pages are mapped to themselves, as kvm_init does.
- Vmm.Memory.KvmInit: a new directory, as both callers pass.
- Exec.LoadProgram: the segments that are loaded start at USER_BASE or above and are page aligned.  The code asks for neither: its assertion in uvm_load stops the kernel at an unaligned one, and a file with contents linked below USER_BASE is written over physical memory (Exec.LowSegment); exactly segments from USER_BASE on go to the program alone.
- Exec.ExecMemory: segments from USER_BASE on, as in LoadProgram; the ELF header and the path lookup enter as parameters, and of each program header the bytes that its file has from its offset on (`Segment.data`).  An offset past the file's end, at which iread panics, is not modelled.
- ExecStack.BuildStack: strings and vector fit into the one stack page; more of them would be written below the page.  sys_exec never passes MAX_ARGC + 1 arguments (proc/sysproc.c:41-44).
- ProcTable.Kernel.Sleep: `sti` between the change of state and the switch, and the window in the scheduler between `sti` and `cli`, are not modelled; a timer interrupt there would meet the assertion in sched.
- ProcTable.Kernel.Wait: the scans of wait and exit stop one slot and more past the table in the code; the model scans the table once.
- FileTable.Files.SysPipe: two free files are required; with one the code dereferences NULL, with none its assertion fails.  With no descriptor left the code also stores NULL at `ofile[-1]` (fs/sysfile.c:440), which is the running process's `chan`, already NULL.
- Machine.Machine.Do: segments as in Exec.LoadProgram; memory is left for what a call takes, and no call runs in the middle of another but the three parts of fork; inodes enter as slot numbers, without the references that open, close and exit take and give back there, which Volume.Volume has.
- Machine.Machine.DoExit: init does not exit.  In the code it does when the timer finds it marked in user mode (kern/timer.c:38-40), and then meets the assertion of proc/proc.c:268; Processes.InitMarkedIff says that it is marked if and only if its pid, 1, has been killed.
- Volume.Volume.Do: only calls that are allowed where they stand: three free slots of the inode table, and no write that spoils a directory; the table of open files and the descriptors, and with them the failure of falloc and fdalloc, are FileTable's.
- Volume.Volume.Open: O_CREATE is left out with create.
- VolumeSpec.ReadsLastWrite: of files that are no directories; what a read of a directory returns is not part of the model.
- Character devices (`dev/tty.c`, `sys_mknod`): their zone[0] is a device number, so ownership of zones covers regular files and directories only.
- `_ialloc`, `create`, `sys_mkdir` and O_CREATE: Links.Create stands for a new file with an entry; the choice of the inode is not modelled, and Volume.Volume begins with the files of its disk.
- `IPB` divides by the size of the in-memory inode in the code; it is a parameter here, with 32 * IPB <= BSIZE, and the inode area is required to end before the data zones.
- Pids are 8 bits wide and may repeat; nothing is claimed about their uniqueness.
- The exit of a killed process when the timer finds it in user mode (kern/timer.c:38-40); killed processes may exit at any time in the model.
- Crash consistency, disk faults, and the double indirect zone, which the code does not use.
- Port input and output, interrupt controllers, segment descriptors, the TLB, the context switch's assembly code and the boot loader.
- Screen, keyboard, printing and logging, `libs/vsprint.c`, user programs and the fetching of system-call arguments.
