# Verified model of the NOSMERI-OS kernel core

This project models the stateful parts of a small 32-bit kernel and proves what they keep over whole runs:

- **File system.** `SimpleFs.dfy` and `Vfs.dfy` are the kernel's SimpleFS and its path layer over an array of
  512-byte sectors; `HostTool.dfy` is the offline Python tool that edits the same disk image. Operations are lists of
  sector writes computed from the disk they start from, so a crash is a prefix of the list. Everything rests on three
  facts about the decoded disk: no data block has two owners, the inodes reachable from the root form a tree, and a
  file's size is covered by a non-zero prefix of its blocks (`Sound` in `FsSpec.dfy`).
- **Kernel heap.** `KernelHeap.dfy` threads the block list through headers stored in the memory it manages;
  `HeapSpec.dfy` says what first fit, splitting, growing and coalescing do to the list of blocks, and `HeapRuns.dfy`
  what a caller finds in its payload over runs of calls and stores.
- **Scheduler.** `Scheduler.dfy` is the circular list of tasks, changed in place; `SchedSpec.dfy`, `SchedRuns.dfy` and
  `SchedTasks.dfy` hold its steps, what holds for every interleaving of them, and what each step does to each task.
- **Paging.** `Paging.dfy` edits two-level page tables through the addresses those tables translate
  (Intel SDM Volume 3A, section 4.3); `PagingSpec.dfy` relates that to a map from pages to entries. `HeapGrowth.dfy`
  joins it with the heap: a heap page mapped while any directory is current.
- **Frame allocator.** `FrameAllocator.dfy` is the physical page bitmap.

The imperative parts are classes over arrays and linked objects. Each public method is tied to a function on values, and
the properties are lemmas about those functions. Hardware (disk controller, interrupts, registers, TLB) is outside the
model: a disk is an array, a context switch is a change of `current`, and translation always reads the tables.

Every invariant is met by a starting state: `SimpleFs.Init` (formatting), the constructors of the other classes,
`KernelFs.RootOnly`, `SchedRuns.BootHoldsNothing` and `Paging.InitialSound` establish it, and the run lemmas carry it on.

These promises turn out to hold only under a condition; each is stated with the exact one:

- a write reported as successful stored its data exactly when `size + 511` does not wrap (`FileData.WriteStoredIff`);
- an allocation covers the request exactly when `size + 3` does not wrap (`HeapSpec.KmallocCovers`);
- a printed path leads back to its directory exactly when no name on the way contains '/' (`PathSpec.PrintThenResolve`);
- a sleep is given ticks for the whole time asked for exactly up to 10 ms and for multiples of 10 ms that do not wrap;
  15 ms is one tick (`SchedSpec.SleepLongEnough`);
- a READY current task becomes RUNNING again exactly when it is not alone and nobody else is READY (`SchedRuns.LoneReady`);
- a new kernel page table leaves all existing kernel entries in place exactly when the master had none for that slot
  (`PagingSpec.ReplacesMaster`, `PagingSpec.OutOfSync`);
- a page kmalloc adds leaves the whole heap mapped exactly when it starts a page table, or the current directory has the
  table it goes into, or the last header's next field lies in it, so that the walk over the headers faults the table in
  (`HeapGrowth.GrowthBackedIff`); otherwise that table is replaced by a fresh one, which three steps can bring about
  (`HeapGrowth.GrowthCanFail`);
- after mapping a page every directory still translates the first 4 MB to themselves exactly unless one of those pages was
  put on another frame or made absent; its flags may change (`PagingSpec.MapUsableIff`, `PagingSpec.UnmapUsableIff`);
- a memory-map range opens a page outside itself exactly when rounding its start up wraps and its end, cut to 32 bits, is
  past the first page (`FrameAllocator.OpensOutsideIff`); it opens exactly the pages inside it when neither sum wraps, or
  when the start does and nothing is opened (`FrameAllocator.OpensExactlyIff`);
- the frames managed are those wholly inside the memory the boot loader reports exactly when its size in bytes does not
  wrap (`FrameAllocator.TotalExactIff`);
- printing a path stays inside the stated size except for the root with a size of 1, where the NUL lands one byte beyond
  (`VfsLayer.Vfs.Overrun`).

## Model

| member | source | states |
|---|---|---|
| DiskFormat.GetPutInode | fs/simplefs.cpp:110-131 | storing an inode in its quarter of a table sector reads back exactly and leaves the other three inodes of the sector as they were |
| DiskFormat.DecodeEntryImage | fs/simplefs.cpp:102-103 | the bytes stored for a directory entry decode to its inode number and name whatever the slot held before |
| DiskFormat.EntriesPutSlot | fs/simplefs.cpp:97-109 | overwriting one 32-byte slot changes one row of the directory listing |
| DiskFormat.InodeBytes | fs/simplefs.cpp:122-131 | the format in bytes: an inode is 32 little-endian words, size, flags, thirty blocks, at its quarter of its table sector |
| DiskFormat.EntryBytes | fs/simplefs.cpp:97-109 | a directory slot is a little-endian inode number and the name up to a NUL or the end of the slot |
| DiskFormat.DecodePrefix | fs/simplefs.cpp:110-121 | cutting an operation's sector writes short is cutting its inode and block updates short: every crash point decodes to a prefix of the updates |
| Ownership.SearchStaysOnDisk | fs/simplefs.cpp:249-269 | the unbounded block search ends at the lowest data block no used inode holds, at most sector 17 + 64 * 30, whatever the inode table contains |
| Ownership.OwnedUpdate | fs/simplefs.cpp:284-288 | giving an inode blocks that were free or its own keeps every block in one (inode, slot) position |
| Namespace.ResolveIff | fs/simplefs.cpp:228-247 | a path resolves to an inode exactly when it is that inode's recorded path, so no reachable inode has two paths and the graph is acyclic |
| Namespace.ResolveStep | fs/simplefs.cpp:228-247 | one lookup leads from a directory to the inode whose path is the directory's path plus the name, and to nothing else |
| Namespace.PathsUnique | fs/simplefs.cpp:228-247 | the reachable tree is determined by the disk |
| Namespace.TreeAdd | fs/simplefs.cpp:97-109 | naming a fresh inode in a free slot keeps names unique, "." on itself, ".." on the one directory listing it, and adds exactly one path |
| Namespace.TreeRemove | tools/simplefs_tool.py:242-251 | clearing a file's slot removes exactly its path and keeps the tree |
| Consistency.SoundFrame | fs/simplefs.cpp:64-96 | the tree and its files depend only on reachable inodes and their blocks |
| Consistency.OrphanInode | fs/simplefs.cpp:64-96 | taking or filling an inode nobody names leaves the reachable tree unchanged |
| Consistency.OrphanBlock | fs/simplefs.cpp:178-185 | writing a free block leaves the reachable tree unchanged |
| Creation.CreateCrash | fs/simplefs.cpp:134-159 | after every proper prefix of the writes of create the ownership and tree invariants hold and the reachable tree is the old one; after all of them it has one more, empty file, or on -1 is still the old one |
| Creation.MkdirCrash | fs/simplefs.cpp:161-203 | the same for mkdir, whose new directory lists itself and its parent and nothing else |
| Creation.CreateIff | fs/simplefs.cpp:134-159 | in every sound state and reachable directory, create succeeds exactly for a name of 1 to 27 bytes that no slot holds, when some inode is unused and some slot nameless |
| Creation.MkdirIff | fs/simplefs.cpp:161-203 | mkdir succeeds under exactly the same condition, so a block for it can always be found |
| Creation.StillOldPaths | fs/simplefs.cpp:134-159 | before the last write every path resolves as before |
| Creation.GrownPaths | fs/simplefs.cpp:134-203 | after it the one new path resolves to the new inode and every other path as before |
| FileData.WriteCrash | fs/simplefs.cpp:271-303 | after every prefix of the writes of a file write all other files and directories are untouched, each block and the size of the target is old or new; complete, the file holds exactly the data |
| FileData.TornContent | fs/simplefs.cpp:284-299 | a torn file has its old length and each byte is the old one or the one being written |
| FileData.WriteStoredIff | fs/simplefs.cpp:275-277 | the exact result of a write for every size below 2^32: accepted up to 15360 bytes or when size + 511 wraps, stored exactly when it does not wrap |
| FileData.WriteKeepsBlocks | fs/simplefs.cpp:284-299 | a write keeps every block the file has, also when it shrinks, takes free ones for exactly the empty slots it fills, and changes no other inode |
| FileData.ReadWriteIff | fs/simplefs.cpp:271-328 | a read answers exactly for names of files; a write is accepted exactly for names the directory holds and sizes that fit or wrap, and refused writes nothing |
| FileData.WriteReadRoundTrip | fs/simplefs.cpp:271-328 | write then read with limit n returns the first min(n, size) bytes of the data |
| FileData.OtherReadsUnchanged | fs/simplefs.cpp:271-328 | reads of every other file and the listing of every directory are the same before and after a write, complete or torn |
| FileData.ReadIsPrefix | fs/simplefs.cpp:305-328 | a read returns the first min(limit, size) bytes of the file |
| KernelFs.IssuedDecodes | fs/simplefs.cpp:110-121 | the sector writes a method issued decode to the updates its specification lists |
| KernelFs.RootOnly | fs/simplefs.cpp:37-58 | a freshly formatted table with its root directory is a sound file system |
| KernelFs.SimpleFs.Init | fs/simplefs.cpp:9-62 | a disk with the magic number and a size, such as any formatted one, is mounted as it is, and the result is valid exactly if the disk was sound; any other is formatted to an empty tree |
| KernelFs.SimpleFs.ReadInode | fs/simplefs.cpp:122-131 | the inode read is the decoded table's |
| KernelFs.SimpleFs.WriteInode | fs/simplefs.cpp:110-121 | one sector write that updates one inode |
| KernelFs.SimpleFs.ScanForFreeInode | fs/simplefs.cpp:71-84 | the sector and place of the lowest unused inode, or none |
| KernelFs.SimpleFs.AllocateFreeInode | fs/simplefs.cpp:64-96 | takes the lowest unused inode, cleared, in one write; -1 changes nothing |
| KernelFs.SimpleFs.IsBlockUsed | fs/simplefs.cpp:249-263 | true exactly for blocks some used inode holds |
| KernelFs.SimpleFs.FindFreeDataBlock | fs/simplefs.cpp:265-269 | terminates with the lowest free data block |
| KernelFs.SimpleFs.AddDirEntry | fs/simplefs.cpp:97-109 | names the inode in the first nameless slot in one write; a full directory changes nothing |
| KernelFs.SimpleFs.LookupName | fs/simplefs.cpp:228-247 | the inode number the abstract directory maps the name to, converted to a signed int, or -1 |
| KernelFs.SimpleFs.GetDirEntry | fs/simplefs.cpp:205-225 | the entry of the abstract listing, nothing for a bad index, a nameless slot or a file |
| KernelFs.SimpleFs.Create | fs/simplefs.cpp:134-159 | succeeds exactly under the condition of Creation.CreateIff; result, exact writes and new paths are those of the specification |
| KernelFs.SimpleFs.Mkdir | fs/simplefs.cpp:161-203 | succeeds exactly under that condition; result, exact writes and new paths are those of the specification |
| KernelFs.SimpleFs.BuildDirectory | fs/simplefs.cpp:180-197 | the block is searched after the inode is taken and handed over before the directory is named |
| KernelFs.SimpleFs.WriteFile | fs/simplefs.cpp:271-303 | result and exact writes are those of the specification, with each new block committed before the next search |
| KernelFs.SimpleFs.WriteBlock | fs/simplefs.cpp:283-298 | one round of the loop: allocate and commit if the slot is empty, then store the zero-filled chunk |
| KernelFs.SimpleFs.ReadFile | fs/simplefs.cpp:305-328 | the bytes copied out are those of the specification |
| PathSpec.SplitJoin | fs/vfs.cpp:149-193 | splitting at '/' and joining are inverse |
| PathSpec.PrintSplitIff | fs/vfs.cpp:204-245 | printing a path and splitting it gives the path back exactly when no component contains '/' |
| PathSpec.RenderJoin | fs/vfs.cpp:204-245 | a printed path is '/' and then its components with single slashes between them |
| PathSpec.LookupNodeIs | fs/vfs.cpp:27-59 | a look-up succeeds exactly for "." and for names the directory lists; the node has that name, the inode's size and kind, and the directory as its parent |
| PathSpec.LookupGivesFile | fs/vfs.cpp:27-59 | a file found by name is a node through which its directory finds it again, with its size |
| PathSpec.WalkGivesFile | fs/vfs.cpp:149-193 | so is every file a path resolves to |
| PathSpec.WalkAfterWrite | fs/vfs.cpp:100-107 | after a write to a file every path leads where it led; only that file's node has the new size |
| PathSpec.ResolveWriteRead | fs/vfs.cpp:100-193 | for every path to a file: resolve it, write up to 15360 bytes through the node, and resolving it again gives the node with the new size, reading through it the data, every other path what it gave |
| PathSpec.ResolveConcat | fs/vfs.cpp:149-193 | resolving a + "/" + b is resolving b from the result of a; only the empty a differs, as "/" + b starts at the root |
| PathSpec.RemoveDot | fs/vfs.cpp:27-34 | a "." taken at a directory can be removed anywhere in a path |
| PathSpec.UpFromChild | fs/vfs.cpp:27-59 | ".." of a child directory is the directory it was found in |
| PathSpec.RemoveDotDot | fs/vfs.cpp:149-193 | an "x/.." pair, x an existing directory, can be removed anywhere in a path |
| PathSpec.WalkDown | fs/vfs.cpp:141-193 | walking the recorded path of a reachable inode from the root arrives at it |
| PathSpec.PrintThenResolve | fs/vfs.cpp:149-245 | the printed path of a reachable node resolves, from any current directory, to that node exactly when no name on the way contains '/' |
| PathSpec.WalkPlain | fs/vfs.cpp:141-193 | walking slash-free components only reaches inodes whose recorded path is slash-free |
| VfsLayer.PrintedResolves | fs/vfs.cpp:204-245 | the C string a successful vfs_get_path leaves in the buffer resolves to the same inode exactly when the names are slash-free |
| VfsLayer.Vfs.Lookup | fs/vfs.cpp:27-59 | succeeds exactly for "." and listed names; the node has the name, the directory as parent, stays reachable and, for a file, is one that writes and reads find |
| VfsLayer.Vfs.ReadDir | fs/vfs.cpp:116-138 | the indexed entry of the listing as a node with its name, inode, size and parent; for a file, one that writes and reads find |
| VfsLayer.Vfs.Create | fs/vfs.cpp:62-78 | succeeds exactly under the condition of Creation.CreateIff; exact writes of the source, and the wanted out-node is the new file with size 0 |
| VfsLayer.Vfs.Mkdir | fs/vfs.cpp:81-97 | succeeds exactly under that condition; exact writes of the source, and the wanted out-node is the new directory |
| VfsLayer.Vfs.Write | fs/vfs.cpp:100-106 | directories and more than 15360 bytes are refused without a change; else the file holds exactly the data, all else is as before, and the node, with the new size, is still the file's |
| VfsLayer.Vfs.Read | fs/vfs.cpp:109-113 | directories are refused; a file gives its first min(limit, size) bytes |
| VfsLayer.Vfs.Resolve | fs/vfs.cpp:149-193 | the character scanner answers what walking the components answers, and a file it finds is a node that writes and reads find |
| VfsLayer.Vfs.ScanRest | fs/vfs.cpp:170-192 | the token loop with its buffer, from any position |
| VfsLayer.Vfs.Cd | fs/vfs.cpp:195-202 | moves to a directory that resolves; otherwise changes nothing |
| VfsLayer.Vfs.GetPath | fs/vfs.cpp:204-245 | succeeds for the root, and for another directory exactly when its printed length plus two fits the stated size; then the buffer holds that path and NUL; nothing outside the stated size changes except for the root and a size of one |
| VfsLayer.Vfs.Climb | fs/vfs.cpp:219-240 | the upward walk terminates with the depth of the tree as measure and fills the buffer from its end |
| VfsLayer.Vfs.Overrun | fs/vfs.cpp:207-210 | beyond the stated size one byte is stored, in one case: the NUL at index 1 for the root and a size of one |
| HostSpec.FreeRunOnDisk | tools/simplefs_tool.py:110-120 | the tool's scan for up to thirty blocks never runs off the disk |
| HostSpec.SameChoice | tools/simplefs_tool.py:110-120 | n kernel allocations, each committed before the next, choose the same blocks as one scan of the tool |
| HostSpec.DecodeToolImage | tools/simplefs_tool.py:212-215 | the entry the tool writes is read by the kernel as that name and inode |
| HostProof.PutNewCrash | tools/simplefs_tool.py:147-221 | cut short anywhere, put of a new name leaves the old tree; complete, the old tree plus one file with exactly the data |
| HostProof.PutOverCrash | tools/simplefs_tool.py:174-200 | overwriting with put keeps the promise of the kernel's write, at every prefix |
| HostProof.ReassignedFacts | tools/simplefs_tool.py:174-185 | an overwritten file keeps its blocks in their slots and gains only free ones |
| HostKernel.RmRemoves | tools/simplefs_tool.py:225-252 | rm removes exactly the file, frees its inode and blocks, and leaves all else |
| HostKernel.RmIff | tools/simplefs_tool.py:225-234 | rm succeeds exactly for the name of a file, and otherwise writes nothing |
| HostKernel.PutIff | tools/simplefs_tool.py:147-221 | put succeeds exactly for names under 28 bytes and at most 15360 bytes, when the name is there or an inode and a slot for it are |
| HostKernel.PutReadBack | tools/simplefs_tool.py:147-221 | a file put by the tool, under a new name or over an existing file, is read back byte for byte by the kernel |
| HostKernel.PutThenRm | tools/simplefs_tool.py:147-252 | put of a new file then rm restores the used inodes, the used blocks and the root listing |
| HostKernel.SameAcceptance | tools/simplefs_tool.py:147-221 | put of a new name succeeds exactly when the kernel's create would and the file has at most thirty blocks; up to that size both return the same code |
| HostKernel.SamePlacement | tools/simplefs_tool.py:186-206 | whenever put succeeds, create plus write in the kernel does too and gives an equal inode table |
| Runs.ToolReady | tools/simplefs_tool.py:122-145 | in a sound state the root has its block, its names lead to inodes in use and inodes hold blocks of the disk, so put and rm never meet a malformed root |
| Runs.StepSound | fs/simplefs.cpp:134-303 | every kernel call and tool call, complete or cut short, leads from a sound state to a sound state |
| Runs.RunsStaySound | tools/simplefs_tool.py:147-252 | ownership and tree survive every run that mixes kernel and tool operations and crashes |
| HostToolImpl.HostTool.AllUsedBlocks | tools/simplefs_tool.py:93-101 | the set is exactly the kernel's set of used blocks |
| HostToolImpl.HostTool.FindFreeInode | tools/simplefs_tool.py:103-108 | the lowest unused inode other than the root, or none |
| HostToolImpl.HostTool.FindFreeBlocks | tools/simplefs_tool.py:110-120 | the lowest free blocks in order; the disk-full error cannot arise for up to thirty |
| HostToolImpl.HostTool.ListRoot | tools/simplefs_tool.py:122-145 | one row for each named slot, whose inode number, size, kind and non-zero blocks are those of the slot and its inode |
| HostToolImpl.RowsAre | tools/simplefs_tool.py:122-145 | the rows come in the order of the slots and say what slot and inode say |
| HostToolImpl.RowsFind | tools/simplefs_tool.py:168-170 | the first row with a name is the entry the kernel's lookup finds |
| HostToolImpl.HostTool.PutFile | tools/simplefs_tool.py:147-223 | succeeds exactly under the condition of HostKernel.PutIff; exact writes are those of the specification and the image stays sound |
| HostToolImpl.HostTool.RmFile | tools/simplefs_tool.py:225-252 | succeeds exactly for names of files; exact writes are those of the specification and the image stays sound |
| HeapSpec.AlignedCovers | mm/heap.cpp:32 | the rounded size is a multiple of 4 and covers the request exactly when size + 3 does not wrap |
| HeapSpec.KmallocCovers | mm/heap.cpp:29-57 | behind a non-null result there is exactly one live block, it is the one new one, and it is at least as large as asked for exactly when size + 3 does not wrap |
| HeapSpec.WrappedRequest | mm/heap.cpp:32 | a request of 2^32 - 3 bytes is answered with an empty payload |
| HeapSpec.PlaceKeeps | mm/heap.cpp:37-54 | taking a fitting block, split or whole, keeps the heap tiled and coalesced and adds exactly one live block, with less than 20 bytes to spare |
| HeapSpec.GrowKeeps | mm/heap.cpp:60-85 | a new page keeps the heap tiled and coalesced and changes no live block |
| HeapSpec.ReleaseKeeps | mm/heap.cpp:89-110 | freeing with coalescing on both sides keeps the heap tiled and coalesced and removes exactly the freed block |
| HeapSpec.AllocateKeeps | mm/heap.cpp:29-86 | kmalloc adds one fresh live block of at least the rounded size, or nothing when it returns null |
| HeapSpec.AllocateClosed | mm/heap.cpp:29-86 | without the recursion: the fewest pages that make the request fit are added and the lowest fitting block is taken; null exactly when address limit or frame supply allows fewer, after growing as far as they allow |
| HeapSpec.KmallocClosed | mm/heap.cpp:29-86 | kmalloc itself: null at once for size 0 and for no other; every other size is rounded and met as in the closed form |
| HeapSpec.KmallocServes | mm/heap.cpp:29-86 | kmalloc gives memory exactly when the size is not 0 and the pages needed fit below the address limit and into the frame supply |
| HeapSpec.FitsAfter | mm/heap.cpp:60-85 | after p pages a request fits exactly when p is at least the number needed |
| HeapSpec.PlaceThenRelease | mm/heap.cpp:37-110 | kfree of a block just taken gives back the list there was before |
| HeapSpec.TotalIsSpan | mm/heap.cpp:29-110 | sizes and headers of all blocks add up to the whole heap |
| HeapSpec.LiveApart | mm/heap.cpp:29-110 | live payloads and headers are pairwise disjoint, 4-aligned and inside the heap |
| HeapSpec.RunsKeepHeap | mm/heap.cpp:11-110 | after any calls of kmalloc and valid kfree the heap is tiled and coalesced and its live blocks are exactly the outstanding allocations, each at least as large as asked for exactly when its request did not wrap |
| HeapSpec.RunsKeepPositive | mm/heap.cpp:11-110 | block sizes stay positive over every run without a wrapping request |
| HeapSpec.FreeAll | mm/heap.cpp:89-110 | freeing all outstanding allocations in any order leaves one free block spanning the heap |
| KernelHeap.MemoryTiles | mm/heap.cpp:11-110 | in memory: next is where a block ends or 0 at the end of the heap, prev undoes next, neighbours are not both free |
| KernelHeap.SplitRep | mm/heap.cpp:38-50 | the stores of a split turn memory holding the old list into memory holding the new one |
| KernelHeap.MergeRep | mm/heap.cpp:95-109 | the stores of a merge do the same |
| KernelHeap.GrowRep | mm/heap.cpp:71-85 | the stores of growing do the same and touch no live payload |
| KernelHeap.KernelHeap.constructor | mm/heap.cpp:11-26 | one free block over the first page |
| KernelHeap.KernelHeap.Kmalloc | mm/heap.cpp:29-86 | memory is given exactly when HeapSpec.KmallocServes says; result and new list are the specification's, memory holds the new list, only mapped words are accessed and no word of a live payload changes |
| KernelHeap.KernelHeap.Search | mm/heap.cpp:33-58 | the walk along next finds the lowest fitting block or the last one |
| KernelHeap.KernelHeap.Extend | mm/heap.cpp:70-85 | the page stretches a free last block or becomes a new one |
| KernelHeap.KernelHeap.Kfree | mm/heap.cpp:89-110 | new list is the specification's, memory holds it, and no word of a payload that stays live changes |
| HeapRuns.StoreKeepsRep | mm/heap.cpp:11-110 | a store anywhere in a live payload leaves the block list in memory intact |
| HeapRuns.EventWord | mm/heap.cpp:11-110 | no call, and no store elsewhere, changes a word of a payload that stays live |
| HeapRuns.PayloadKept | mm/heap.cpp:29-110 | over every run of calls and of stores into live payloads, until a block is freed it stays live and each word of its payload holds what was last stored there |
| HeapGrowth.WalkFacts | mm/heap.cpp:33-58 | the walk over the headers gives the current directory exactly the heap tables it reads through, by faults, and keeps the tables sound |
| HeapGrowth.ReadsServed | mm/vmm.cpp:121-130 | every header read ends where the master has it, whichever directory is current |
| HeapGrowth.GrowthBackedIff | mm/heap.cpp:60-70 | after kmalloc mapped one more page the whole heap is mapped in the master exactly when the page starts a table, or the current directory had its table, or the next field of the last header lies in it |
| HeapGrowth.GrowthKeeps | mm/heap.cpp:60-70 | in that case the tables also stay sound for every directory |
| HeapGrowth.GrowthCanFail | mm/vmm.cpp:75-83 | from any heap ending where a table does, with a free last block: new directory, one page of growth, switch, and the next growth loses pages the heap had |
| SchedSpec.SleepTicksExact | task/task.cpp:208-216 | every positive sleep gets at least one tick, and the tick count is ms / 10 rounded down, at least one, exactly when ms * 100 does not wrap |
| SchedSpec.SleepLongEnough | task/task.cpp:211-214 | the ticks cover the time asked for exactly up to 10 ms and for multiples of 10 ms that do not wrap; 15 ms is one tick |
| SchedSpec.WalkClosed | task/task.cpp:250-261 | the walk unlinks and frees exactly the dead tasks (but the kernel task) in front of the first READY one and touches no other |
| SchedSpec.WalkKeeps | task/task.cpp:250-261 | the walk never unlinks the current task and stops at a READY one |
| SchedSpec.KillKeeps | task/task.cpp:288-313 | kill keeps the ring invariant and never unlinks the current task |
| SchedSpec.ScheduleKeeps | task/task.cpp:246-286 | schedule keeps the ring invariant |
| SchedRuns.RunsKeepInv | task/task.cpp:21-323 | in every reachable state the ring holds the current task and pid 0, pids are distinct and only the current task can be RUNNING |
| SchedRuns.StepLedger | task/task.cpp:288-313 | stacks, frames and task blocks are conserved: what a step gives back is what was obtained for the tasks it removed, each once |
| SchedRuns.FreedIsUnused | task/task.cpp:288-313 | when the allocators do not hand out what a task still holds, no step frees anything a remaining task, the current one included, still uses, and each resource keeps at most one holder |
| SchedRuns.BootHoldsNothing | task/task.cpp:182-195 | at boot no task holds anything an allocator gave out, so the ledger starts without duplicates |
| SchedRuns.RunsBalance | task/task.cpp:21-323 | over every such run what was freed and what is held is what was held before and what was handed out, and each resource has at most one holder |
| SchedRuns.BootRunsFreeUnused | task/task.cpp:21-323 | between any two states of a run from boot, what was freed and not handed out again is held by no task of the ring |
| SchedRuns.BoundedWaiting | task/task.cpp:246-286 | a READY task d places behind the current one is RUNNING within d calls of schedule plus one for each task created meanwhile, for every interleaving |
| SchedRuns.LoneReady | task/task.cpp:246-266 | a READY current task is dispatched again exactly when it is not alone and nobody else is READY |
| SchedRuns.StepFrozen | task/task.cpp:208-323 | no step but its waking tick changes a sleeping or dead task, and a sleeping one leaves the ring only when killed |
| SchedRuns.SleepsUntil | task/task.cpp:208-240 | a sleeping task is SLEEPING in every state before its wake tick and READY in the first state at it, wherever it is in the ring |
| SchedRuns.SleepNotEarly | task/task.cpp:208-224 | a caller of task_sleep that is not killed is SLEEPING, and so stays in the waiting loop, until the ticks it asked for have passed, and READY at the tick that completes them |
| SchedRuns.DeadStaysDead | task/task.cpp:315-323 | a dead task never leaves DEAD |
| SchedTasks.ScheduleRing | task/task.cpp:246-286 | schedule without its walk: the first READY task comes to the front RUNNING, those behind it keep their order, the one left goes behind them, READY in place of RUNNING, with the survivors of those passed over |
| SchedTasks.ScheduleTasks | task/task.cpp:246-286 | task by task: only the dispatched and the left task change, only in state; exactly the dead in front of the first READY one, the kernel task excepted, are gone |
| SchedTasks.KillIff | task/task.cpp:288-313 | kill succeeds exactly for a pid other than 0 behind the current task; that task is gone, what was obtained for it given back, the others as they were |
| SchedTasks.CreateTasks | task/task.cpp:49-61 | the new task is READY with the next pid right behind the current one; the others keep their records and order |
| SchedTasks.ExitTasks | task/task.cpp:315-318 | the caller is DEAD and still in the ring, and the first READY task, if any, runs |
| SchedTasks.StepTask | task/task.cpp:21-323 | every step leaves a task that is not killed and does not sleep or exit itself in the ring with its record, and its state moves only as the table of states allows |
| SchedTasks.RunnableStays | task/task.cpp:21-323 | over every run a task that is RUNNING or READY, is not killed and neither sleeps nor exits is RUNNING or READY in every state |
| SchedTasks.RunsAgain | task/task.cpp:246-286 | a RUNNING task that yields runs again within as many calls of schedule as there are other tasks, plus one for each created meanwhile |
| Scheduler.Scheduler.constructor | task/task.cpp:182-195 | the kernel task alone, RUNNING |
| Scheduler.Scheduler.CreateTask | task/task.cpp:21-64 | the new READY task is linked right behind the current one; a failed allocation gives back what was obtained |
| Scheduler.Scheduler.CreateUserTask | task/task.cpp:68-133 | the same with a user stack frame and a page directory |
| Scheduler.Scheduler.Insert | task/task.cpp:59-61 | linking behind the current task keeps one circle |
| Scheduler.Scheduler.KillTask | task/task.cpp:288-313 | unlinks and frees the task with this pid behind the current one; the kernel task, the current task and unknown pids are refused |
| Scheduler.Scheduler.Unlink | task/task.cpp:296-305 | one task leaves the circle and exactly its resources are freed |
| Scheduler.Scheduler.TimerTick | task/task.cpp:226-240 | wakes every sleeper whose tick has come, wherever it is, and nobody else |
| Scheduler.Scheduler.WalkOn | task/task.cpp:253-260 | one round of the walk, unlinking behind itself, makes progress |
| Scheduler.Scheduler.Schedule | task/task.cpp:246-286 | terminates and leaves exactly the specification's ring, which SchedTasks.ScheduleRing and ScheduleTasks describe |
| Scheduler.Scheduler.SwitchTo | task/task.cpp:263-285 | the circle is rotated to the task switched to and the one left stays READY if it was RUNNING |
| Scheduler.Scheduler.Sleep | task/task.cpp:208-219 | marks the current task and schedules |
| Scheduler.Scheduler.Exit | task/task.cpp:315-318 | marks the current task dead and schedules |
| PagingSpec.Windows | mm/vmm.cpp:71-72 | with slot 1023 pointing at the directory itself the two windows translate to exactly the directory words and the page-table words |
| PagingSpec.MapLook | mm/vmm.cpp:66-98 | map refines inserting one page: it has the new entry, every other non-window page looks up as before, also when a table is made and zeroed; another directory sees it exactly if it shares the table |
| PagingSpec.MapUser | mm/vmm.cpp:75-94 | after map user code may read or write the page exactly as the flags given say: the tables never get in the way |
| PagingSpec.MapSoundIff | mm/vmm.cpp:66-98 | the result is sound exactly unless a page of the first 4 MB is put on another frame or made absent; its flags may change |
| PagingSpec.MapUsableIff | mm/vmm.cpp:66-98 | said of the directories: exactly then every one of them still translates all of the first 4 MB to themselves |
| PagingSpec.UnmapLook | mm/vmm.cpp:100-113 | unmap refines removing one page |
| PagingSpec.UnmapSoundIff | mm/vmm.cpp:100-113 | the result is sound exactly outside the first 4 MB |
| PagingSpec.UnmapUsableIff | mm/vmm.cpp:100-113 | said of the directories: exactly then every one of them still translates all of the first 4 MB to themselves |
| PagingSpec.NewTableSound | mm/vmm.cpp:75-94 | entering a fresh table keeps the system sound |
| PagingSpec.ReplacesMaster | mm/vmm.cpp:80-82 | the unconditional store to the master changes no present kernel entry exactly when the master had none |
| PagingSpec.OutOfSync | mm/vmm.cpp:80-82 | when it replaces one, the kernel loses every page mapped there and other directories keep a table the master no longer has |
| PagingSpec.ReachesOutOfSync | mm/vmm.cpp:80-82 | make a directory, map a page in a heap slot the master lacks, switch: no frame makes the new directory ready for a table in that slot |
| PagingSpec.TablesDistinct | mm/vmm.cpp:75-94 | tables of different slots, and user tables of different directories, are different frames |
| PagingSpec.KernelShared | mm/vmm.cpp:50-55 | kernel slots of two directories are absent or the same, and agree with the master |
| PagingSpec.NewDirectoryLook | mm/vmm.cpp:36-59 | a new address space has the first 4 MB and the heap slots of the master and nothing else; others are unchanged |
| PagingSpec.SyncSound | mm/vmm.cpp:121-130 | after a kernel fault the slot equals the master's and the system is sound |
| PagingSpec.SyncLook | mm/vmm.cpp:121-130 | a kernel fault changes only that slot of that directory |
| PagingSpec.KernelReached | mm/vmm.cpp:116-130 | every kernel address the master maps is reached in every directory: translated as in the master, or the fault is served and it then is |
| PagingSpec.RunsStaySound | mm/vmm.cpp:9-130 | over every run of create, drop, switch, map, unmap and fault the invariants of all directories hold |
| PagingSpec.RunsKeepLow | mm/vmm.cpp:9-130 | over every such run every directory translates the first 4 MB to themselves, also when their flags are changed |
| PagingSpec.RunsSeparate | mm/vmm.cpp:66-113 | while a directory is not the current one its user pages above the first 4 MB, which all share, are translated as before, whatever the others do |
| Paging.InitialSound | mm/vmm.cpp:9-21 | the tables init_vmm builds satisfy the invariant of the whole system |
| Paging.InitialLook | mm/vmm.cpp:9-21 | at the start the first 4 MB are mapped to themselves and nothing else is |
| Paging.Paging.constructor | mm/vmm.cpp:9-30 | the initial tables are sound |
| Paging.Paging.CreatePageDirectory | mm/vmm.cpp:36-59 | written at its identity-mapped address, the new directory is the specification's |
| Paging.Paging.SwitchPageDirectory | mm/vmm.cpp:61-63 | any directory in use can become the current one; nothing else changes |
| Paging.Paging.MapPage | mm/vmm.cpp:66-98 | the stores through the windows have exactly the specification's effect on physical memory; the state stays valid exactly unless a page of the first 4 MB is put on another frame or made absent |
| Paging.Paging.AddTable | mm/vmm.cpp:75-94 | entering and clearing a table through its window, translated by the tables being changed |
| Paging.Paging.UnmapPage | mm/vmm.cpp:100-113 | likewise for unmap, valid exactly outside the first 4 MB |
| Paging.Paging.ServeFault | mm/vmm.cpp:116-130 | serves exactly faults from 0xC0000000 to below 0xFFC00000 whose slot the master has, by copying that entry, and changes nothing otherwise |
| FrameAllocator.BitChanged | mm/pmm.cpp:18-35 | setting or clearing a bit changes that bit alone |
| FrameAllocator.AllOnes | mm/pmm.cpp:45 | a word is all ones exactly when its 32 pages are used |
| FrameAllocator.OpensExactlyIff | mm/pmm.cpp:69-76 | a range opens exactly the pages wholly inside it, over the whole address space, if and only if neither sum wraps, or the start does and nothing is opened |
| FrameAllocator.OpensOutsideIff | mm/pmm.cpp:69-76 | a page outside the range is opened if and only if the rounded start wraps and the end, cut to 32 bits, is past the first page |
| FrameAllocator.OpenedIsInside | mm/pmm.cpp:97-111 | when every available range meets that condition, the pages opened at boot are exactly those wholly inside an available range |
| FrameAllocator.TotalExactIff | mm/pmm.cpp:83-94 | the pages managed are those wholly inside the reported memory exactly when its size in bytes does not wrap; 128 MB without a report |
| FrameAllocator.FallbackOpens | mm/pmm.cpp:109-112 | without a map exactly the managed pages from 1 MB on are opened |
| FrameAllocator.ProtectedBelowKernelEnd | mm/pmm.cpp:115-123 | the protected pages are exactly those below the end of the kernel |
| FrameAllocator.RunsKeepReserved | mm/pmm.cpp:127-143 | over every run the used pages are the reserved and the outstanding ones and no reserved page is handed out |
| FrameAllocator.AllocIsFresh | mm/pmm.cpp:79-135 | a page allocated after any run from init is above the kernel, in an available range, not outstanding and the lowest free one |
| FrameAllocator.FrameAllocator.constructor | mm/pmm.cpp:79-124 | after init a page is free exactly when an available range opens it and it is not protected |
| FrameAllocator.FrameAllocator.BitmapSet | mm/pmm.cpp:18-25 | adds the page to the used set, counting it once; the counter is the number of set bits below the total |
| FrameAllocator.FrameAllocator.BitmapUnset | mm/pmm.cpp:28-35 | removes it, with the counter |
| FrameAllocator.FrameAllocator.FindFirstFreePage | mm/pmm.cpp:43-56 | the lowest free page of the first 32 * (total / 32), or -1 |
| FrameAllocator.FrameAllocator.MarkRegionUsed | mm/pmm.cpp:59-66 | closes exactly the pages of the range |
| FrameAllocator.FrameAllocator.MarkRegionFree | mm/pmm.cpp:69-76 | opens exactly the whole pages of the range |
| FrameAllocator.FrameAllocator.AllocPage | mm/pmm.cpp:127-135 | hands out the lowest free page, or null when there is none |
| FrameAllocator.FrameAllocator.FreePage | mm/pmm.cpp:138-143 | gives one page back |

## Left out

- KernelFs.SimpleFs.Init: says nothing about a crash during formatting; the superblock is written first, so a half-formatted disk would be mounted.
- HostKernel.RmRemoves: says nothing about a crash inside rm; the inode is cleared before the entry, so the entry would name a free inode.
- Creation.CreateCrash: speaks of the reachable tree; a create or mkdir in a full directory leaves an allocated inode nobody names, and nothing reclaims it.
- VfsLayer.Vfs.Write: requires that size + 511 does not wrap; FileData.WriteStoredIff covers the sizes for which it does.
- VfsLayer.Vfs.Resolve: requires path components under 256 bytes, the size of the token buffer.
- VfsLayer.Vfs.GetPath: requires a stated size of at most 2^31, as the source keeps the position in a signed integer.
- HostToolImpl.HostTool.PutFile: the name is non-empty, holds no NUL and does not belong to a directory; reading the host file and the command line are not modelled.
- KernelHeap.KernelHeap.Kmalloc: mapping a page succeeds, and the frame allocator is the number of pages it will still give; the three padding bytes beside is_free are part of its word.
- KernelHeap.KernelHeap.Kfree: takes null or a live pointer; the source does not check.
- SchedRuns.RunsKeepInv: pids and the tick counter do not wrap; each function is one step, so interrupts inside a list edit are not modelled.
- Scheduler.Scheduler.Sleep: up to its first call of schedule; the rest of the loop in task_sleep is further calls of schedule by a sleeping task, and SchedRuns.SleepNotEarly says when it can end.
- Scheduler.Scheduler.CreateUserTask: the page directory is always obtained, as the source does not check; create_user_process is the same step, since its task is READY only once its code is loaded.
- PagingSpec.RunsStaySound: runs map a page of the first 4 MB only to its own frame, with any flags that leave it present, and unmap none of them, as anything else ends the identity mapping the source relies on (PagingSpec.MapUsableIff); a new kernel table is made only where the master has none (PagingSpec.ReplacesMaster, HeapGrowth.GrowthBackedIff).
- SchedRuns.BootRunsFreeUnused: the allocators do not hand out what a task of the ring still holds; after a free they may hand it out again.
- SchedRuns.StepLedger: covers what kill_task gives back; page tables, user frames other than the stack and open files of a dead task are never reclaimed by the source.
- Paging.Paging.MapPage: the page is outside the windows, a frame for a new table is available, and in the kernel half the master has no table the current directory lacks; PagingSpec.ReachesOutOfSync shows that it can have one.
- HeapRuns.PayloadKept: a caller stores only into live payloads; a store outside them is not modelled.
- Paging.Paging.CreatePageDirectory: the frame lies in the identity-mapped first 4 MB, where the source writes it.
- PagingSpec.Windows: the translation is the kernel's, which access rights do not stop (PagingSpec.MapUser is about user code); accessed and dirty bits, 4 MB pages and the TLB are not part of it.
- FrameAllocator.FrameAllocator.constructor: the memory map is a list of ranges; walking its variable-sized records is not modelled.
- Register save and restore, stack frames of new tasks, CR3 and GDT contents.
- Disk controller, timer, keyboard and display drivers: a sector transfer is one array access.
- System calls, file descriptors and File objects; vfs_file_read ignores its offset, so there are no stream semantics to state.
- Shell, heap_dump, task_dump and all printing.
- lib/string: comparison, copy and length are sequence operations.
