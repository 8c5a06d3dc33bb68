# Foxtail in Dafny

A model of the hard parts of the Foxtail kernel and of three of its user-space structures, with
proofs of what they keep, preserve and give back. `dafny verify dfyconfig.toml` verifies the whole
project.

| files | what they model |
|---|---|
| `FsDefs`, `Seqs` | constants and the inode record of the file system; shared facts about sequences |
| `Paths` | symlink following, path lookup, and the path printed for an inode |
| `FileData` | block bitmap, reading and writing file bytes through block lists |
| `MkFs` | the image builder, up to reading a built file back with the kernel |
| `Directories`, `Namespace` | create, link, delete and harden, on values and in place |
| `Harden` | what swapping a symlink with its target does to every link chain |
| `Procs`, `WaitProtocol`, `Scheduling` | the process table as a state machine; wait and exit; the scheduler |
| `RefCounts`, `Descriptors` | descriptors, and the reference counts of inodes and pipes |
| `KernelRuns`, `TreeRuns`, `WaitRuns` | whole runs of calls and switches from boot on: the counts, the directory tree, and waiting |
| `PageAlloc`, `Paging`, `AddressSpace`, `Cleanup` | page frames, two-level page tables, program loading, `sbrk`, and the end of a process |
| `Pipes`, `Tty` | the pipe ring and the keyboard ring with line editing |
| `UserHeap` | `malloc`, `free` and `realloc` |
| `TextFiles`, `Editor` | the line editor: its files and its doubly linked list |
| `Lisp` | the reader and the printer of the Lisp interpreter |

Code that changes things in place is modelled by classes and methods with loops. Each such method
is tied to a function or a predicate on values, and the laws are proved about those. Read-only
recursion (path lookup, the Lisp reader) is modelled by functions.

A run theorem returns a trace: its first state is the old one, its last the new one, the invariant
holds in every state, and each state follows from the one before by the operation at that place, or
equals it where that operation could not be done.

The main results:

- Every file of every host tree that fits the image is read back byte for byte by the kernel, if
  and only if its path does not start with the name `mkfs` was given for the tree
  (`MkFs.BuildThenRead`, `MkFs.ReadBackUnlessDropped`).
- Over every run of spawn, `sbrk` and exit, each frame is free, lost or used in exactly one place,
  and `cleanup_proc` frees each page and table frame of the process exactly once
  (`Cleanup.Run`, `Cleanup.CleanupProc`, `Paging.FramesDistinct`).
- Over every run of calls and context switches from boot on, each reference count is the number of
  live descriptors, and no open descriptor names a freed inode (`KernelRuns.BootAndRun`).
- Over the same runs, the tree stays well formed and lists no deleted inode exactly until a call
  deletes the empty root (`TreeRuns.RunSound`, `TreeRuns.BuildBootRun`).
- In every state of such a run a waiting parent names a slot that still holds its child, and `wait`
  returns that child's exit code (`WaitRuns.WaitReturnsInKernel`).
- A new process has exactly the pages of its segments, its stack and its heap, and loses exactly as
  many frames as segment pages lie under the stack or the heap (`AddressSpace.Vm.Exec`).
- A ready process is chosen within MAX_PROCS scheduler calls (`Scheduling.ReadyIsChosen`).
- Pipes deliver in order and in whole lines over any interleaving (`Pipes.FreshFifoRun`).
- Over every run the user heap behaves like separate arrays (`UserHeap.Run`).
- The editor's list is a sequence with a cursor over every session (`Editor.Editor.Session`).
- A Lisp value is read back from its printed form if and only if it is legal (`Lisp.RoundTrip`).

Where the code departs from its evident intent, the code is followed, and the exact condition under
which the intent is met is proved:

- `free_block` tests the bit the wrong way round and never changes the bitmap
  (`FileData.FileSystem.FreeBlock`).
- Growing a file allocates from one block too late, so a write is exact if and only if it stays
  inside the blocks the file has, or the leftover slot after them happens to name a fresh data block
  and the blocks allotted after it are fresh too (`FileData.FileSystem.WriteBytes`).
- `mkfs` skips an entry called like the directory it was given, so `~/fs` is missing from an image
  built with `mkfs fs` (`MkFs.DroppedMisses`); no other directory can lose an entry (`MkFs.NoClash`).
- A remap command that overwrites a descriptor copied by an earlier one leaves its reference counted
  (`Descriptors.Kernel.SysSpawn`, `Descriptors.RepeatedTargetLoses`).
- The pipe's write pointer is advanced by `p + (1 % N)`. That agrees with the wrapped step if and
  only if fewer than N bytes are ever accepted (`Pipes.FreshLiteralAgrees`). As written, delivery stays
  in order unless a reader goes past a newline in the last place (`Pipes.LiteralFifo`), and a store
  strays exactly when a write passes the last place unchecked (`Pipes.LiteralStep`).
- `cleanup_proc` frees the page directory by address instead of by page number, so each exit loses
  one frame (`Cleanup.CleanupProc`).
- The clamp of a shrinking break has its effect if and only if the break is above the heap base
  (`AddressSpace.ClampBites`), and negative requests round towards zero
  (`AddressSpace.ShrinkKeepsPage`).
- `harden` copies parent link and reference count of the target. It keeps the tree
  (`Harden.HardenKeepsTree`) and the counts (`Descriptors.HardenTally`) only under the stated
  conditions, and changes the meaning of chains that are exactly at the hop limit
  (`Harden.HardenPreserves`). `Harden.ApartTreeBreaks`, `Descriptors.HardenTallyBreaks` and
  `Harden.LongChainBreaks` give an input for each.
- Deleting the last of several lines leaves the editor's line number one too high
  (`Editor.KeepsStep`, `Editor.GotoMisses`); saving does not shorten the file
  (`TextFiles.SaveThenLoad`).
- A typed line that fills the keyboard ring is lost (`Tty.LineRead`, `Tty.RawHolds`).
- The size rounding of `malloc` overflows near the top of the 32-bit range
  (`UserHeap.AlignUpGrows`), and payloads are never 8-aligned (`UserHeap.InHeap`).

## Model

| member | source | states |
|---|---|---|
| Paths.FollowSymlink | kernel/src/fs.c:65-78 | the loop ends on the inode reached by at most ten hops, or reports a dangling or too long chain |
| Paths.LookupConcat | kernel/src/fs.c:90-142 | looking up a path and then a continuation from where it led equals looking up both in one go |
| Paths.LookupOfSlashes | kernel/src/fs.c:90-142 | runs of slashes change nothing; a path of slashes only stays at its base |
| Paths.SkippedIsSuffix | kernel/src/fs.c:98-100 | what is skipped in front of a component is slashes, and only those |
| Paths.LookupEntry | kernel/src/fs.c:108-134 | one component looked up in a directory is the entry that carries the name |
| Paths.ChildResolves | kernel/src/fs.c:90-142 | in a well-formed tree every listed inode is reached from its directory by its name |
| Paths.RootResolves | kernel/src/fs.c:90-142 | the root path leads to inode 0 from every base that is not a file |
| Paths.LookupFromRoot | kernel/src/fs.c:90-142 | a path that starts at the root means the same from every base |
| Paths.PathResolves | kernel/src/syscall.c:316-343 | the path of any attached inode resolves back to that inode, from any base that is not a file |
| Paths.PathHelper | kernel/src/syscall.c:316-343 | fails exactly when path and terminator do not fit; otherwise the buffer starts with exactly the path and its terminator, and the rest is untouched |
| Paths.FillPath | kernel/src/syscall.c:330-341 | the back-to-front fill writes exactly the computed number of characters, and they are the path |
| Paths.PathLength | kernel/src/syscall.c:316-329 | the measuring walk ends and yields the path's length plus terminator |
| FileData.FileSystem.AllocBlock | kernel/src/fs.c:13-22 | takes the lowest free block and no other; says so when all are in use |
| FileData.AllotsFree | kernel/src/fs.c:13-22 | blocks allotted one after the other were free and differ from each other |
| FileData.GrownOk | kernel/src/fs.c:194-213 | a file that outgrows its blocks stays well formed if and only if the slot after its last block and the blocks allotted are data blocks of its own |
| FileData.ExtendsIff | kernel/src/fs.c:194-213 | with a bitmap that marks the blocks of the file, that comes down to the leftover slot and to enough free blocks |
| FileData.FileSystem.FreeBlock | kernel/src/fs.c:24-31 | never changes the bitmap |
| FileData.ChunkOfContents | kernel/src/fs.c:177-187 | a run of file bytes inside one block is a run of image bytes |
| FileData.ChunkSplices | kernel/src/fs.c:214-265 | overwriting a run of image bytes inside one block splices the file at that offset and changes nothing outside its blocks |
| FileData.ProgressThen | kernel/src/fs.c:214-265 | moving two adjacent ranges one after the other moves both |
| FileData.OtherContentsKept | kernel/src/fs.c:191-266 | files that share no block with the written one keep their bytes |
| FileData.FileSystem.MoveRange | kernel/src/fs.c:214-265 | the block-by-block transfer moves exactly the bytes from the offset up to the request or the end of the file |
| FileData.FileSystem.Grow | kernel/src/fs.c:194-213 | what a write does to size, block list and bitmap before bytes move, in every case: which blocks it allots, when it grows nothing, when it runs off the slots |
| FileData.FileSystem.ReadBytes | kernel/src/fs.c:269-271 | returns the bytes from the offset up to the request or the end of the file; nothing else changes |
| FileData.FileSystem.WriteBytes | kernel/src/fs.c:273-275 | all bytes are written to a file that is still well formed if and only if the write is covered by its blocks or the file can extend that far; then the contents are spliced and nothing outside the file changes |
| MkFs.FileNameOfJoin | mkfs/src/main.c:12-15 | the last component of directory, slash and name is the name |
| MkFs.Builder.constructor | mkfs/src/main.c:139-147 | the empty image: only bitmap and inode blocks are marked used |
| MkFs.Builder.StoreBytes | mkfs/src/main.c:37-58 | a file goes to consecutive fresh blocks, at most 21 of them, marked used; earlier blocks keep their bytes |
| MkFs.Builder.ProcessFile | mkfs/src/main.c:17-63 | the next inode holds the file under its name, in fresh blocks |
| MkFs.Builder.PlaceEntries | mkfs/src/main.c:98-120 | all entries but the skipped ones are placed after the directory, listed in order, and point back to it |
| MkFs.Builder.ProcessDir | mkfs/src/main.c:65-124 | the whole subtree without skipped entries is laid out from the reserved inode on, with exactly its number of inodes and blocks |
| MkFs.NoClash | mkfs/src/main.c:99 | no entry of a subdirectory is called like its own path, so only the top directory can lose one |
| MkFs.Builder.Build | mkfs/src/main.c:126-149 | every tree that fits yields a well-formed image with nothing open that holds it, but for a top-level entry called like the directory given |
| MkFs.Builder.WriteImage | mkfs/src/main.c:151-161 | the file written is bitmap, inodes and data in that order, and its bitmap says of every block whether it is in use |
| MkFs.LaidFrame | mkfs/src/main.c:98-120 | a laid-out subtree does not depend on inodes and blocks outside its own |
| MkFs.LookupLaid | kernel/src/fs.c:90-142 | in an image that holds a tree, any path of names leads to the inode of the node it names |
| MkFs.BitmapWritten | mkfs/src/main.c:139-142 | bit b modulo 8 of byte b / 8 of the written bitmap is the mark of block b |
| MkFs.ReadBack | mkfs/src/main.c:17-124 | the path of every file of the tree leads to a file inode with exactly that file's bytes, if and only if the file has at most 21 blocks |
| MkFs.DroppedMisses | mkfs/src/main.c:99 | a path that starts with the name of the directory given resolves to nothing |
| MkFs.ReadBackUnlessDropped | mkfs/src/main.c:98-120 | a file of the host tree is found under its path with its bytes if and only if the path does not start with that name and the file has at most 21 blocks |
| MkFs.BuildThenRead | mkfs/src/main.c:126-164 | build, hand over, look up, read: the buffer holds the host file's bytes if and only if its path does not start with the name of the directory given; otherwise the lookup finds nothing |
| Directories.NameIsFree | kernel/src/syscall.c:630-691 | a name that passes the checks and does not resolve is legal and taken by no entry |
| Directories.AddEntryKeeps | kernel/src/syscall.c:630-691 | listing a freshly named inode keeps the tree well formed |
| Directories.CreateKeeps | kernel/src/syscall.c:630-691 | create keeps the tree well formed; on success the name resolves to a new empty inode, on failure nothing changed |
| Directories.LinkKeeps | kernel/src/syscall.c:732-794 | link keeps the tree well formed; on success the name is a new symlink to the target or the old symlink redirected to it |
| Directories.WithoutDistinct | kernel/src/syscall.c:694-729 | dropping one of distinct entries leaves the others in order |
| Directories.DeleteKeeps | kernel/src/syscall.c:694-729 | deleting a listed inode keeps the tree well formed, and its name no longer resolves |
| Namespace.InodeTable.AllocInode | kernel/src/fs.c:33-40 | the first unallocated inode |
| Namespace.InodeTable.SysCreate | kernel/src/syscall.c:630-691 | does what the specification of create says, in place |
| Namespace.InodeTable.SysLink | kernel/src/syscall.c:732-794 | does what the specification of link says, in place |
| Namespace.InodeTable.CloseGap | kernel/src/syscall.c:714-718 | closing the gap removes exactly one slot |
| Namespace.InodeTable.RemoveAll | kernel/src/syscall.c:712-721 | the removal loop with its index stepping back below zero equals filtering the deleted index out |
| Namespace.InodeTable.SysDelete | kernel/src/syscall.c:694-729 | returns what the checks say; the listing goes and the inode is freed, or marked if still open; for a listed inode the tree stays well formed and the name is gone |
| Namespace.InodeTable.SysHarden | kernel/src/syscall.c:797-829 | swaps symlink and target; an inode keeps its meaning if and only if its chain is not exactly at the hop limit |
| Harden.FollowEnds | kernel/src/fs.c:65-78 | following reaches the end of a chain exactly when ten hops are enough |
| Harden.ChainAfter | kernel/src/syscall.c:797-829 | a chain through the hardened link loses a hop, one around it gains a hop, and both end on the former link |
| Harden.FollowElsewhere | kernel/src/syscall.c:797-829 | a chain that does not lead to the target is followed as before |
| Harden.HardenPreserves | kernel/src/syscall.c:797-829 | an inode keeps its meaning if and only if its chain is not exactly at the hop limit: ten hops around the link, eleven through it |
| Harden.LongChainBreaks | kernel/src/syscall.c:819-827 | the last of ten links to a file leads nowhere once another link to it is hardened |
| Harden.HardenKeepsTree | kernel/src/syscall.c:819-827 | the tree stays well formed if and only if link and target share their parent and the target is not a filled directory or the root, or the target is a deleted directory that holds the link alone |
| Harden.ApartTreeBreaks | kernel/src/syscall.c:819-827 | hardening a link to a file in another directory leaves a tree that is not well formed |
| Procs.FirstUnused | kernel/src/proc.c:17-28 | the lowest unused slot |
| Procs.FindPid | kernel/src/syscall.c:211-222 | the lowest slot that carries the pid |
| WaitProtocol.BootedInv | kernel/src/proc.c:47-92 | the table after boot satisfies the invariant |
| WaitProtocol.ExecKeeps | kernel/src/proc.c:17-28 | starting a process keeps the invariant |
| WaitProtocol.ReapKeeps | kernel/src/proc.c:76-88 | reaping never takes a slot somebody may still ask for |
| WaitProtocol.VisitKeeps | kernel/src/proc.c:49-91 | one round of the scheduler loop keeps the invariant, and a parent it wakes takes over its child's exit code |
| WaitProtocol.StepKeeps | kernel/src/syscall.c:164-232 | every syscall, exit and context switch keeps the invariant |
| WaitProtocol.RunKeeps | kernel/src/proc.c:47-92 | the invariant holds in every reachable state |
| WaitProtocol.WaitReturnsExitCode | kernel/src/syscall.c:211-232 | in every reachable state a waiting process names a slot holding its own child; a killed child stays there until the parent wakes, and then the parent has exactly its exit code |
| WaitProtocol.PickKeepsZombie | kernel/src/proc.c:76-88 | a killed child that is waited for is neither reaped nor reused |
| Scheduling.ProcTable.AllocProc | kernel/src/proc.c:17-28 | takes the lowest unused slot with a fresh pid, and fails exactly on a full table |
| Scheduling.ProcTable.SysWait | kernel/src/syscall.c:211-232 | fails exactly when no slot carries the pid or it is not the caller's child; otherwise the caller waits for that slot |
| Scheduling.ProcTable.Scheduler | kernel/src/proc.c:47-92 | terminates because idle can always run, and chooses what the specification chooses |
| Scheduling.PickProgress | kernel/src/proc.c:47-92 | the scheduler stops at a ready process or before it, so the cyclic distance shrinks |
| Scheduling.SyscallKeepsReady | kernel/src/proc.c:47-92 | no syscall of another process makes a ready process unready |
| Scheduling.ReadyIsChosen | kernel/src/proc.c:47-92 | a ready process is chosen within as many scheduler calls as its slot is away, whatever happens between them |
| RefCounts.CountBound | kernel/src/fs.c:53-63 | no count exceeds processes times descriptors |
| RefCounts.PickSameCounts | kernel/src/proc.c:47-92 | scheduling, reaping and respawning change no count |
| Descriptors.TakeTally | kernel/src/exec.c:270-284 | taking a reference for a copied descriptor keeps counters equal to descriptors |
| Descriptors.LostTally | kernel/src/exec.c:270-284 | overwritten descriptors that stay counted leave the counters right if and only if they hold nothing |
| Descriptors.RepeatedTargetLoses | kernel/src/exec.c:270-284 | of two commands with one target the reference of the first is lost |
| Descriptors.DropTally | kernel/src/cleanup.c:39-46 | so does releasing the next descriptor of an ending process |
| Descriptors.OpenTally | kernel/src/syscall.c:358-403 | so does opening |
| Descriptors.CloseTally | kernel/src/syscall.c:463-482 | so does closing, also when the last reference frees a deleted inode |
| Descriptors.PipeTally | kernel/src/syscall.c:866-882 | so does a new pipe with both ends |
| Descriptors.DeleteRefs | kernel/src/syscall.c:722-726 | delete moves no reference and frees only unreferenced inodes |
| Descriptors.OpenIsReferenced | kernel/src/fs.c:53-63 | what a live descriptor names is referenced, so the inode is allocated |
| Descriptors.HardenTally | kernel/src/syscall.c:823 | harden keeps the counts if and only if the two counters agree |
| Descriptors.HardenTallyBreaks | kernel/src/syscall.c:823 | a process that holds the file a link names: hardening the link makes the counts wrong |
| Descriptors.ScheduleTally | kernel/src/proc.c:47-92 | a context switch leaves every count right |
| Descriptors.Kernel.SysOpen | kernel/src/syscall.c:358-403 | the exact result in every case; on success the lowest free descriptor holds the inode the path names, with one more reference, otherwise nothing changes; counts stay right |
| Descriptors.Kernel.SysClose | kernel/src/syscall.c:463-482 | fails exactly on a descriptor that is not open; otherwise it and its reference are gone |
| Descriptors.Kernel.SysPipe | kernel/src/syscall.c:833-887 | two new descriptors on a pipe that no live descriptor named, so no two pipes share a buffer |
| Descriptors.Kernel.RemapFds | kernel/src/exec.c:270-284 | the new table is the remapped one, every copy is counted, and so is every descriptor overwritten |
| Descriptors.Kernel.SysSpawn | kernel/src/syscall.c:163-189 | the child has the remapped descriptors, its parent's directory and a fresh pid; the counts stay right if and only if no overwritten descriptor holds a reference |
| Descriptors.Kernel.SysExit | kernel/src/cleanup.c:39-52 | all descriptors are released, a deleted inode is freed exactly with its last reference, and the process ends |
| KernelRuns.Perform | kernel/src/syscall.c:163-887 | one call or switch: its result and whole new state in every case, with the counts right; nothing happens when nobody but idle runs or the scheduler panics |
| KernelRuns.RefOkExact | kernel/src/fs.c:53-63 | right counts stay far below 2^16, and no open descriptor names a freed inode or a free pipe |
| KernelRuns.Run | kernel/src/syscall.c:163-887 | over every run each state follows from the one before by its call, and in each of them every inode and pipe counter equals its live descriptors |
| KernelRuns.BootRefs | kernel/src/main.c:188-205 | the state after boot on an image with nothing open has right counts |
| KernelRuns.BootAndRun | kernel/src/main.c:188-205 | the same over every run from boot |
| TreeRuns.DeleteSound | kernel/src/syscall.c:694-729 | deleting any inode but the root, listed or not, keeps the tree well formed and free of deleted entries |
| TreeRuns.ReleaseStepSound | kernel/src/fs.c:53-63 | so do open, close, spawn and exit, which may free inodes |
| TreeRuns.StepSound | kernel/src/syscall.c:358-887 | a call keeps the tree so if and only if it does not delete the root |
| TreeRuns.RunSound | kernel/src/syscall.c:358-887 | over every run, all states up to any point have such a tree if and only if no call before it deletes the root |
| TreeRuns.FreshImage | mkfs/src/main.c:126-149 | a built image has such a tree and nothing open |
| TreeRuns.BuildBootRun | kernel/src/main.c:188-205 | build an image, boot on it, run any calls: counts and tree as above, in every state |
| WaitRuns.StepProjects | kernel/src/syscall.c:163-232 | what a call does to the process table is one event of the wait protocol or none |
| WaitRuns.RunProjects | kernel/src/proc.c:47-92 | the process table of every state of a run from boot is where the protocol gets with the events so far |
| WaitRuns.WaitReturnsInKernel | kernel/src/syscall.c:211-232 | at every step of such a run a waiting process names a slot holding its own child, the one it asked for; a killed child stays there until the parent wakes, and then the parent has exactly its exit code |
| PageAlloc.PageAllocator.Alloc | kernel/src/pgalloc.c:14-27 | if any page is free the search ends, the panic is not reached, and exactly one free page leaves the set |
| PageAlloc.PageAllocator.FreePage | kernel/src/pgalloc.c:46-53 | the page is free afterwards; true exactly when it was in use |
| PageAlloc.PageAllocator.Run | kernel/src/pgalloc.c:14-53 | over any run, of any length, each call is done or is an allocation with no page free; free and handed-out pages are conserved, and no page is handed out twice without a free between |
| PageAlloc.HandOut | kernel/src/pgalloc.c:14-27 | a page that is not out can be handed out again only after it was given back |
| Paging.FramesDistinct | kernel/src/exec.c:42-113 | frames reachable from live processes through different entries are different |
| Paging.AddTable | kernel/src/exec.c:64-77 | a fresh zeroed table behind an empty entry keeps the frame invariant |
| Paging.AddPage | kernel/src/exec.c:79-83 | so does a fresh page in an empty place |
| Paging.DropTable | kernel/src/syscall.c:258-261 | so does a table that leaves with all its pages |
| Paging.DropProcess | kernel/src/cleanup.c:13-37 | so does a process that leaves with all its frames |
| AddressSpace.ClampBites | kernel/src/syscall.c:249 | a shrink is cut off at the heap base if and only if the break is above the base |
| AddressSpace.ShrinkKeepsPage | kernel/src/syscall.c:237 | shrinking by what was grown keeps at least one page |
| AddressSpace.PageDropped | kernel/src/syscall.c:251-256 | a page that leaves its table is in use, owned by exactly that place, and goes to the free or the lost frames |
| AddressSpace.TableDropped | kernel/src/syscall.c:258-261 | a table that leaves frees its frame and loses exactly the pages still in it |
| AddressSpace.HeapGrown | kernel/src/syscall.c:265-282 | mapping the page at the end of the heap moves its exact end by one page |
| AddressSpace.HeapShrunk | kernel/src/syscall.c:250-262 | unmapping the last page moves the exact end back, with the table when it was the first page of it |
| AddressSpace.ShrunkRest | kernel/src/syscall.c:250-262 | unmapping a heap page changes no mapping below it and none outside the heap |
| AddressSpace.Vm.MapHeapPage | kernel/src/syscall.c:265-282 | one round of growing maps exactly that page to a frame that was free, and loses a frame exactly if the page was mapped |
| AddressSpace.Vm.UnmapHeapPage | kernel/src/syscall.c:250-262 | one round of shrinking frees the page's frame, and its table's at a 4 MiB boundary, both in use before |
| AddressSpace.Vm.GrowHeap | kernel/src/syscall.c:264-283 | the growing loop adds exactly the pages of its range and loses one frame for each of them that was mapped; an exact heap stays exact |
| AddressSpace.Vm.ShrinkHeap | kernel/src/syscall.c:248-263 | the shrinking loop changes mappings from its new end on only; an exact heap stays exact and nothing is lost |
| AddressSpace.Vm.SbrkHelper | kernel/src/syscall.c:235-289 | the break moves by the rounded and clamped amount, the heap is mapped up to it (exactly, if it was), nothing outside the heap and no other process changes, all frames stay accounted for |
| AddressSpace.Vm.MapSegments | kernel/src/exec.c:42-86 | exactly the pages of the segments are added, a page that was mapped is not mapped anew, and other processes keep their frames |
| AddressSpace.Vm.MapStack | kernel/src/exec.c:88-113 | exactly the three stack pages are added, the user's for the user and the kernel's two for the kernel only; one frame is lost for each that was mapped |
| AddressSpace.Vm.InstallDirectory | kernel/src/exec.c:143-157 | the directory with the kernel half gets its own frame and the break starts at the base |
| AddressSpace.Vm.Exec | kernel/src/exec.c:36-160 | a new process has exactly the pages of its segments, its stack and its heap up to its break, in frames of its own; as many frames are lost as segment pages lie under stack or heap; every other address space stays as it was |
| Cleanup.PagePassed | kernel/src/cleanup.c:29-34 | a table entry is empty or holds a frame in use that the walk has not met before |
| Cleanup.TablePassed | kernel/src/cleanup.c:23-36 | the same for directory entries and their tables |
| Cleanup.FreeTable | kernel/src/cleanup.c:27-35 | frees the pages of one table and the table, each of them in use |
| Cleanup.CleanupProc | kernel/src/cleanup.c:13-37 | every frame of the process but its directory becomes free exactly once and no other frame does; the directory's frame is lost |
| Cleanup.Run | kernel/src/cleanup.c:13-37 | over every run of start, sbrk and end, each event is done or could not be; frames are conserved and heaps mapped up to their breaks in every state; with no process left all frames not lost are free, and without segments above the heap base exactly one frame is lost per ending |
| Cleanup.Perform | kernel/src/cleanup.c:13-37 | what one start, sbrk or end did to the address spaces, the breaks and the lost frames |
| Pipes.PipeBuffer.Write | kernel/src/syscall.c:53-74 | stores up to the full test, or refuses when the read end is closed, as the specification of the write loop says |
| Pipes.PipeBuffer.Read | kernel/src/syscall.c:140-151 | delivers what the specification of the read loop says |
| Pipes.PipeBuffer.SysRead | kernel/src/syscall.c:128-151 | with nothing committed it reports a closed pipe or sleeps; otherwise it delivers the next accepted bytes, none past the last newline |
| Pipes.PipeBuffer.constructor | kernel/src/syscall.c:866-869 | a fresh pipe is empty whatever its buffer holds |
| Pipes.NextAgrees | kernel/src/syscall.c:70 | the step as written and the wrapped one agree exactly below the end of the buffer |
| Pipes.WriteSync | kernel/src/syscall.c:61-74 | a write appends exactly what fits, and reports whether all did |
| Pipes.ReadSync | kernel/src/syscall.c:140-151 | a read takes the next bytes in order and stops at the last newline |
| Pipes.FifoRun | kernel/src/syscall.c:53-151 | over any interleaving of writers and readers the bytes delivered are a prefix of those accepted and end no later than the last newline |
| Pipes.FreshFifoRun | kernel/src/syscall.c:866-869 | so for every pipe from its making on, whatever its buffer held |
| Pipes.LiteralAgrees | kernel/src/syscall.c:70 | the run as written equals the wrapped run if and only if fewer than PIPE_BUF_SIZE bytes are accepted |
| Pipes.FreshLiteralAgrees | kernel/src/syscall.c:866-869 | so for every pipe from its making on |
| Pipes.LiteralStep | kernel/src/syscall.c:53-74 | as written, a write strays if and only if it has more bytes than places are left and neither full test stops it |
| Pipes.LiteralFifo | kernel/src/syscall.c:53-151 | as written, in a run that has not strayed the bytes delivered are a prefix of those accepted if and only if no reader has gone past a newline in the last place |
| Pipes.LastPlaceNewline | kernel/src/syscall.c:70-73 | a newline in the last place makes a reader get bytes nobody wrote |
| Tty.Terminal.Key | kernel/src/interrupt.c:404-469 | shift keys, key tables, editing and the three modes, as the specification of the handler says |
| Tty.Terminal.Read | kernel/src/syscall.c:112-127 | delivers what the specification of the read loop says |
| Tty.PushPending | kernel/src/interrupt.c:458-459 | a typed character is appended to the pending line |
| Tty.PopPending | kernel/src/interrupt.c:447-453 | a backspace takes off the last pending character, also across the start of the ring |
| Tty.Commit | kernel/src/interrupt.c:458-462 | a newline makes the pending line readable, unless it fills the ring |
| Tty.LineRead | kernel/src/interrupt.c:447-462 | wherever the line starts, a reader gets the edited line if the ring kept count of it and it has at most INPUT_BUFFER_LEN - 2 characters, and with room for everything only then |
| Tty.DepthIsLength | kernel/src/interrupt.c:447-462 | the ring keeps count of a line that never exceeds INPUT_BUFFER_LEN - 1 characters |
| Tty.SessionReads | kernel/src/interrupt.c:447-462 | lines typed and read in turn all arrive as edited |
| Tty.BackspaceAtStart | kernel/src/interrupt.c:449 | a backspace at line start does nothing exactly when no earlier line is unread |
| Tty.ScanHolds | kernel/src/interrupt.c:409-416 | scancode mode keeps the most recent INPUT_BUFFER_LEN - 2 codes |
| Tty.RawHolds | kernel/src/interrupt.c:458-462 | raw mode shows each key at once until the ring is full; one more loses all |
| Tty.ShiftTracked | kernel/src/interrupt.c:418-426 | over any run of codes each shift flag says whether its key is down |
| Tty.ShiftedTyping | kernel/src/interrupt.c:427-437 | a character key types its shifted character exactly while a shift key is down |
| UserHeap.AlignUpGrows | user/include/malloc.h:14 | rounding up gives at least the size if and only if it does not overflow |
| UserHeap.Increasing | user/include/malloc.h:18-27 | the block list is in increasing address order, so it has no cycle |
| UserHeap.BlocksApart | user/include/malloc.h:29-37 | blocks with their headers do not overlap |
| UserHeap.InHeap | user/include/malloc.h:29-37 | every block lies inside the mapped heap, and no payload is 8-aligned |
| UserHeap.Arena.FindFreeBlock | user/include/malloc.h:18-27 | the first free block that is large enough, or null exactly when there is none |
| UserHeap.Arena.RequestMem | user/include/malloc.h:29-37 | a new block at the old break, which moves by whole pages |
| UserHeap.Arena.Malloc | user/include/malloc.h:39-67 | the first fitting block, or a new one behind the last; it was not live, is large enough, and no other block changes |
| UserHeap.Arena.Free | user/include/malloc.h:69-78 | only the block's flag changes; null is ignored |
| UserHeap.Arena.CopyBytes | user/include/malloc.h:111-117 | the target holds the source's bytes and nothing else changed |
| UserHeap.Arena.Realloc | user/include/malloc.h:94-121 | in place if it fits; otherwise a new block whose front is the old payload, and the old block is freed |
| UserHeap.AllocatedApart | user/include/malloc.h:39-67 | a new payload overlaps no live payload |
| UserHeap.ArraysApart | user/include/malloc.h:39-121 | live payloads are pairwise disjoint |
| UserHeap.RepWrite | user/include/malloc.h:39-121 | a write through one pointer changes no other payload |
| UserHeap.RepResize | user/include/malloc.h:94-121 | realloc keeps the common prefix and every other payload |
| UserHeap.Perform | user/include/malloc.h:39-121 | each call does what its specification says to the block list, the memory and the pointers, and is a legal step on separate arrays |
| UserHeap.Run | user/include/malloc.h:39-121 | over any run each call is done or could not be served; in every state the program sees separate arrays, and memory holds them |
| TextFiles.SplitJoin | user/src/ed.c:64-139 | saved to an empty file and loaded again, lines come back if and only if each is storable |
| TextFiles.JoinSplit | user/src/ed.c:64-139 | loaded and saved again, a file is unchanged if and only if it is empty or ends in a newline, has no zero characters and no line over 255 characters |
| TextFiles.SaveThenLoad | user/src/ed.c:122-139 | lines saved over a file come back if and only if each is storable and the file was not longer before |
| Editor.LinkAfter | user/src/ed.c:191-200 | the pointers of a new node and its neighbours behind a node |
| Editor.LinkBefore | user/src/ed.c:218-227 | the same in front of a node |
| Editor.Unlink | user/src/ed.c:252-256 | the neighbours of a node point past it |
| Editor.PutInChained | user/src/ed.c:182-233 | after these changes the nodes form a chain with the new text in its place |
| Editor.TakenOutChained | user/src/ed.c:247-264 | after these the nodes form a chain without the text |
| Editor.Editor.InsertAfter | user/src/ed.c:182-207 | the text goes behind the cursor, which moves to it |
| Editor.Editor.InsertBefore | user/src/ed.c:209-233 | the text goes in front of the cursor, which moves to it |
| Editor.Editor.ReplaceLine | user/src/ed.c:235-245 | only the current text changes |
| Editor.Editor.DeleteLine | user/src/ed.c:247-264 | only the current line goes; the next, or the one before, becomes current, and the number shown stays |
| Editor.Editor.GotoLine | user/src/ed.c:158-180 | lands on the target if the number shown is right or the walk restarts; otherwise it ends as many lines early as the number is too high, and it steps off the list exactly when there are not that many |
| Editor.Editor.LoadFile | user/src/ed.c:64-120 | the list holds the lines of the file, the cursor on the first |
| Editor.Editor.SaveFile | user/src/ed.c:122-139 | the lines are written over the file and what was behind them stays |
| Editor.Editor.EnterAfter | user/src/ed.c:327-334 | repeated input lands behind the cursor in order |
| Editor.Editor.EnterBefore | user/src/ed.c:335-342 | repeated input lands in front of the cursor in reverse order |
| Editor.Editor.Session | user/src/ed.c:301-353 | over every session the list equals a sequence with a cursor |
| Editor.KeepsStep | user/src/ed.c:158-264 | every command keeps the number shown right, except deleting the last of several lines; goto lands on its target and nothing steps off the list |
| Editor.SafeSession | user/src/ed.c:158-264 | a session without such a deletion never steps off the list and ends with the right number |
| Editor.GotoMisses | user/src/ed.c:258-262 | after such a deletion goto misses by one, or steps off the list for line 1, unless its walk restarts at the first line |
| Lisp.ItoaBuffer | user/include/printf.h:10-44 | the decimal digits with sign; only the sign for the smallest number |
| Lisp.ExprReadable | user/src/lisp.c:171-202 | the values the reader can return |
| Lisp.SymbolSplits | user/src/lisp.c:192-201 | the symbol read and the text left make up the text |
| Lisp.PrintParse | user/src/lisp.c:339-361 | printed and read again, a value comes back with negative numbers and nil turned into symbols, and exactly the text behind it is left |
| Lisp.RoundTrip | user/src/lisp.c:151-202 | a value comes back with exactly the rest left, for every delimiter-led rest, if and only if it is legal |
| Lisp.NegativeParses | user/src/lisp.c:179-191 | a backquote before digits reads as the negative number |
| Lisp.SpaceInFront | user/src/lisp.c:151-154 | white space in front of an expression or of the rest of a list does not matter |
| Lisp.ListCloses | user/src/lisp.c:158-169 | reading the rest of a list closes exactly one open list, or does not end |
| Lisp.ListLarge | user/src/lisp.c:158-191 | the rest of a list fails on a number of 2^31 or more in it, and otherwise leaves those behind it |
| Lisp.ReaderEnds | user/src/lisp.c:158-202 | the result is undefined if and only if the text of the expression holds a number of 2^31 or more; else the reader ends if and only if every list it begins is closed before the text ends |

## Left out

- FileData.FileSystem.AllocBlock: the kernel's bitmap is an array of booleans; the packing eight to a byte is modelled for the written image only.
- MkFs.Builder.WriteImage: the bytes of the inode blocks are given; the encoding of inodes as C structs is not modelled.
- MkFs.Builder.ProcessDir: host entries that are neither files nor directories are not in the tree type.
- Namespace.InodeTable.FreeInode: its calls of `free_block` are left out, since they change nothing (`FileData.FileSystem.FreeBlock`).
- Cleanup.Run: events that `SbrkHelper` does not cover are passed over, though the code would do something for them.
- AddressSpace.Vm.SbrkHelper: shrinking from a break at the heap base exactly, where the clamp has no effect, and heaps that reach the stack's page table are excluded.
- AddressSpace.Vm.Exec: frames for the stack pages are taken in the order of their entries; the contents of pages and of the argument block are not modelled.
- AddressSpace.Vm.MapSegments: segments end below the kernel half, and enough frames are free.
- Cleanup.CleanupProc: the stray write that the wrong page number causes outside the page map is not modelled, only the loss of the frame.
- Descriptors.Kernel.SysSpawn: the checks on the program come before it, in `KernelRuns.PerformSpawn`; descriptor numbers in the commands are in range, and there are not so many commands that a 16-bit counter could wrap around.
- KernelRuns.Run: `harden` is not among the calls, since it keeps the counts only under the condition of `HardenTally`; remap targets are distinct, since repeated ones keep them only under that of `SysSpawn`.
- WaitProtocol.StepKeeps: pids do not wrap around at 2^32.
- Pipes.PipeBuffer.Write: a store behind the end of the buffer ends the model instead of spilling into the next pipe's buffer.
- Tty.Terminal.Key: the key tables are parameters and the echo on the screen is not modelled.
- UserHeap.Arena.Malloc: headers and payload bytes are kept apart; that blocks do not overlap is proved, so no header is overwritten through a valid pointer.
- TextFiles.SaveThenLoad: the file takes and returns all bytes; that the kernel's files do not grow past their blocks is the business of `FileData`.
- Editor.Editor.LoadFile: reading and writing the file itself is the business of the file system model; messages to the user are not modelled.
- `sys_reopen`: it does not drop pipe references and releases before a failing return; not modelled.
- `sys_pwd`, the info calls, `calloc` and the small user programs: not modelled.
- The Lisp evaluator and environments: not modelled.
- Inline assembly, context switches, descriptor tables, interrupt controllers, TLB flushes and screen output: hardware effects; a switch is one step of the scheduler.
- Boot memory map, ELF parsing and checks of user pointers: the initial free frames, the segments, whether a file is a program, and the buffers are given.
