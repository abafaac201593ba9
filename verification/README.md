# LightningOS, modelled and proved

LightningOS is a small 32-bit kernel. This project models the parts of it whose state is hard to
keep in one's head and proves what they are for: a heap that never loses or overlaps a byte, a
scheduler that starves nobody, a tree of files whose paths mean what they say, snapshots that come
back after a reboot or fail safely, and a terminal whose screen always agrees with what was typed.

Each component has two halves and, where it needs one, a module of laws. A `...Spec` module says on plain values what the component does and
proves the laws about it, over all inputs and over whole runs. A second module keeps the state as
the kernel does, in fields, arrays and linked records that are rewritten in place, and its methods
are proved to compute exactly what the first half says. The laws (`PathNames`, `SchedulerRuns`,
`LineLaws` and their like) say what all of that comes to in other words: by names, by keys pressed, by
interrupts counted, by accounts and bytes on the disk.

| file | modules | component |
|---|---|---|
| Heap.dfy | HeapSpec | first-fit allocator over blocks |
| Memory.dfy | Memory | physical memory, and block headers laid over its bytes |
| HeapMemory.dfy | HeapMemory | what the allocator stores, and what list of blocks that spells |
| HeapRuns.dfy | HeapRuns | runs of calls, second frees, what owners have stored |
| KernelHeap.dfy | KernelMemory | the allocator over linked block headers in memory |
| Scheduler.dfy | SchedulerSpec, TaskTable | round-robin scheduler over a circular list |
| SchedulerRuns.dfy | SchedulerRuns | sleeping, ending, ids and accounts over whole runs |
| Words.dfy | Words | the 32-bit machine word |
| Checksum.dfy | Bytes, Checksum | little-endian integers, FNV-1a (section 2 of draft-eastlake-fnv) |
| Printf.dfy | PrintfSpec, Printf | formatted output into a bounded buffer, number parsing |
| PrintfLaws.dfy | PrintfLaws | what each directive prints and how it is read |
| Paths.dfy | Paths | splitting and joining of paths |
| RamFs.dfy | FsSpec, FsRuns, RamFs | tree of files and directories, path walker and path printer, runs of operations |
| PathNames.dfy | PathNames | what a path means by names alone |
| Accounts.dfy | AccountSpec, Accounts | account table and the /etc/passwd file made from it |
| AccountLaws.dfy | AccountLaws | accounts by name, /etc/passwd, new homes |
| Snapshot.dfy | SnapshotFormat, SnapshotTree, SnapshotExact | snapshot layout, reader, rebuilding a tree, and exactly when that succeeds |
| SnapshotLaws.dfy | SnapshotLaws | where each field lies, and cut-off payloads |
| Persist.dfy | PersistSpec | saving, mounting, formatting, crashes |
| PersistRuns.dfy | PersistRuns | sessions of edits, flushes and boots |
| Store.dfy | PersistStore | the same with cursors over a device |
| Display.dfy | DisplaySpec, Display | text screen, scrollback ring, video memory |
| DisplayLaws.dfy | DisplayLaws | control characters, clearing, colours |
| LineEditor.dfy | LineSpec, LineEditor | line editing and history |
| LineLaws.dfy | LineLaws | the line entered by the keys alone |
| Keyboard.dfy | KeyCodes, KeyRingSpec, KeyDecode, Keyboard | key ring shared with the interrupt handler, scancodes |
| KeyLaws.dfy | KeyLaws | sequences of scancodes |
| Permissions.dfy | PermissionSpec, Permissions | write permission by path |
| WriteCheck.dfy | WriteCheck | exactly what the write check lets through |
| Install.dfy | InstallSpec, Installer | installing onto a disk |
| Limits.dfy | Limits, HeapLimits | inputs on which the kernel does not do what one would expect |

How the model reads the kernel:

- A section of code that runs with interrupts masked is one step. Interrupts that can fall between
  two steps (keys arriving during `keyboard_poll`, the events between two calls of
  `task_schedule`) may fall anywhere.
- A disk is a sequence of 512-byte sectors. A write sends its sectors in order and may stop after
  any of them; stopping there and crashing there are the same to a later boot. Whether a read, a
  write or an allocation succeeds is a parameter, except where "Left out" says otherwise.
- Memory is an array of 2^32 bytes, and a block header is whatever five fields its bytes spell, so
  headers that overlap overwrite each other and any pointer can be freed.
- C strings are byte sequences without NUL. Sizes and addresses are unbounded integers; where the
  kernel's 32-bit arithmetic wraps (request rounding, the header address of a freed pointer,
  checksum, task ids, user and save counters, writer position) the wrap is written out.
- Some proofs begin with a `hide` statement. It only keeps definitions away from the solver inside
  that proof; it assumes nothing.

Statements that turned out false of the code, each with an input and with the exact condition under
which it holds:

- The comment at fs/persist.c:200 says that after a crash the old superblock still refers to the
  old payload. The payload is rewritten in place, so one sector of a save can destroy a snapshot
  that mounted before: `PersistSpec.OldSnapshotCanBeLost`. It survives a cut after k sectors exactly
  if the new payload begins with the same bytes as far as it went: `PersistSpec.OldSnapshotSurvives`.
- When a mount fails the boot announces that it goes on in memory only (kernel/kernel.c:109-113), but
  nothing stops the next save: `PersistSpec.DamagedSnapshotIsReplaced` is a disk whose damaged
  snapshot is overwritten, `PersistSpec.ErrorIsOverwritten` says that it happens exactly if the new
  one fits.
- A snapshot of an empty system does not come back: `PersistSpec.SaveThenMount` shows that it mounts
  as an error, and only then; `Limits.NothingMountsAsError` has the machine.
- A tree with a path of more than 32 levels or 254 characters, or with anything below a dot name,
  mounts without an error as another tree: `PersistSpec.SaveThenMount` and
  `SnapshotExact.RestoredExactly` are equivalences, `Limits.DeepTreeIsLost` has a tree.
  `SnapshotExact.MadeTreesComeBack` shows that operations never put anything below a dot name, so
  that for running systems the path limits alone decide.
- A path printed by `fs_abspath` leads back to its node only within those limits and without any dot
  name, which `fs_create` does not refuse: `FsSpec.ResolvePrinted` and `FsSpec.CreateResolves` are
  equivalences, `Limits.DeepPathIsCut` and `Limits.DotFile` have the inputs.
- Removing a directory above the current one leaves the current directory dangling:
  `FsSpec.PruneKeeps` states it as an equivalence, `Limits.CwdRemoved` has the tree. The check at
  fs/ramfs.c:224 refuses only the current directory itself.
- `kmalloc` of more than 0xFFFFFFF8 bytes hands out an empty block: `HeapSpec.RoundHoldsRequest` has
  the bound, `Limits.HugeRequest` the call.
- `kfree` means to let a second free of a block pass (kernel/mem.c:181). That holds as long as the
  block has not been merged away, and through any run of frees (`HeapRuns.FreeAllInMemory`). After
  that, `HeapRuns.SecondFree` says exactly when: no header may have been written over the magic
  number left behind, and the last one over the free flag must not have put a zero there. Otherwise
  it panics, as in `HeapLimits.SecondFreePanics`, or takes the remains for a block in use and
  corrupts the list, as in `HeapLimits.SecondFreeRunsWild`.
- New user ids stay fresh only until the 32-bit counter wraps, which a single imported account can
  bring about: `AccountSpec.AddFresh` and `AccountSpec.ImportFresh` say exactly when, and in
  `Limits.UidWraps` an ordinary account gets the administrator's id.
- The write check confines a user to the home and to /tmp, but for a home that an import may bring
  and `users_add` never gives: an empty one, which it takes for everything
  (`PermissionSpec.EmptyHomeEscapes`), "/", which it takes for the root directory without its
  contents (`PermissionSpec.SlashHomeEscapes`), and one whose last name is too long for a node
  (`PermissionSpec.LongHomeEscapes`). And it does so only down to 32 levels: below, the first name is
  not shown, and "/a/tmp/..." passes for "/tmp" (`PermissionSpec.DeepParentEscapes`,
  `Limits.DeepTmp`). `PermissionSpec.CreateConfined` covers everything else.
- An installation onto the slave, which the installer picks when there is no master
  (kernel/install.c:57-70), does not outlive the first save: the slave is then its own data disk.
  `InstallSpec.SlaveIsOverwritten` has the disk; `InstallSpec.SurvivesFirstWrite` and
  `InstallSpec.TargetSurvives` say exactly when an installation survives.
- The smallest disk the installer accepts is one sector too small for the mount that follows:
  `InstallSpec.InstallThenMount` has the condition, `InstallSpec.SmallestDiskIsNotSeen` the disk.

## Model

| member | source | states |
|---|---|---|
| HeapSpec.RoundHoldsRequest | kernel/mem.c:123-126 | the rounded size holds the request exactly for requests up to 0xFFFFFFF8; larger ones round to 0 |
| HeapSpec.FirstFit | kernel/mem.c:130-132 | the block found is free and large enough and no earlier one is; the list length means there is none |
| HeapSpec.AllocateKeeps | kernel/mem.c:100-143 | after an allocation the blocks still tile the heap in address order, 4-aligned, without two free neighbours |
| HeapSpec.AllocateTakes | kernel/mem.c:130-138 | an allocation adds exactly one live block, at the chosen address and at least as large as asked, and disturbs no other |
| HeapSpec.ReleaseKeeps | kernel/mem.c:154-187 | a release keeps the same invariant, so coalescing with both sides at once leaves no two free neighbours |
| HeapSpec.ReleaseDrops | kernel/mem.c:170-187 | a release removes exactly its block from the live ones |
| HeapSpec.BytesConserved | kernel/mem.c:136-183 | live bytes and free bytes, headers included, always add up to the heap size |
| HeapSpec.Canonical | kernel/mem.c:83-187 | the live blocks determine the whole block list: two heaps with the same live blocks are equal |
| HeapSpec.AllocateThenRelease | kernel/mem.c:121-187 | freeing what was just allocated restores the exact block list |
| HeapSpec.FreeAllRestores | kernel/mem.c:83-187 | on the list, freeing all live blocks, in any order and even more than once, ends in the single initial free block |
| HeapSpec.FitsInFreeBlock | kernel/mem.c:130-132 | any room between live blocks that could hold a block lies inside one free block |
| HeapSpec.FirstFitIsLowest | kernel/mem.c:121-143 | allocation fails only if no gap between live blocks can hold the block, and otherwise takes the lowest address that can |
| HeapMemory.SplitStamps | kernel/mem.c:100-117 | a split writes the headers of the list it leaves, linked both ways, and no other byte |
| HeapMemory.AllocateStamps | kernel/mem.c:130-138 | so does `kmalloc` as a whole |
| HeapMemory.NextStamps | kernel/mem.c:156-161 | so does the join with a right neighbour |
| HeapMemory.PrevStamps | kernel/mem.c:162-167 | so does the join with a left neighbour |
| HeapRuns.ReleaseStamps | kernel/mem.c:154-187 | `kfree` of a block in use writes three such lists in turn, the last one the specified one |
| HeapRuns.RunKeeps | kernel/mem.c:83-187 | over every run of allocations, stores by owners and frees that neither panic nor run wild, memory holds a coalesced tiling of the heap, no byte is lost, and no blocks overlap |
| HeapRuns.PayloadStays | kernel/mem.c:83-187 | over every such run, what an owner has stored in its block stays until it stores something else |
| HeapRuns.MergedIsWhole | kernel/mem.c:154-187 | a header that a release merges away is left with its magic number and says free |
| HeapRuns.RunShows | kernel/mem.c:83-187 | over every run, what such remains say is determined by the lists of headers written since |
| HeapRuns.AfterAllMeans | kernel/mem.c:100-167 | namely: broken for good once a header reaches into the magic number; in use if the last header over the flag put a zero there |
| HeapRuns.SecondFree | kernel/mem.c:170-187 | exactly when a second free of a block merged away panics, runs wild, or changes nothing |
| HeapRuns.WildSpoils | kernel/mem.c:180-184 | one that runs wild makes the size of a listed block wrong with its first store |
| HeapRuns.FreesAreCalm | kernel/mem.c:170-187 | runs of frees alone never panic or run wild, however often a block is freed |
| HeapRuns.FreeAllInMemory | kernel/mem.c:170-187 | so freeing all blocks in use, in any order and more than once, ends in the list of a fresh heap |
| KernelMemory.UsableHeapSize | kernel/mem.c:62-81 | the first usable region holding the heap base decides, cut to 32 MiB; 1 MiB if there is none |
| KernelMemory.KernelHeap.constructor | kernel/mem.c:83-98 | a fresh heap is one free block; nothing but its header is written |
| KernelMemory.KernelHeap.SplitBlock | kernel/mem.c:100-117 | on any header the stores of `split_block`; on a block of the list they write the headers of the list after the split and no other byte |
| KernelMemory.KernelHeap.FindFit | kernel/mem.c:130-132 | the loop over the links in memory finds the first fit |
| KernelMemory.KernelHeap.Malloc | kernel/mem.c:121-143 | the heap in memory after `kmalloc` holds the specified blocks, no byte outside their headers has changed, and the pointer is the payload of the block found, or NULL |
| KernelMemory.KernelHeap.AbsorbNext | kernel/mem.c:156-161 | on any bytes the stores of the first half of `coalesce`; on a block of the list they write the headers of the list after the join and no other byte |
| KernelMemory.KernelHeap.AbsorbIntoPrev | kernel/mem.c:162-167 | the same for the second half |
| KernelMemory.KernelHeap.Coalesce | kernel/mem.c:154-168 | both in turn leave the headers of the specified merge in memory |
| KernelMemory.KernelHeap.Free | kernel/mem.c:170-187 | for every 32-bit pointer the bytes in memory decide: no magic number panics, a set free flag changes nothing, the header of a block in use is released as specified; bytes that only look like one are followed as they are, and nothing is promised of the list |
| SchedulerSpec.StepKeeps | kernel/task.c:38-286 | every event keeps the ring: exactly the slots in use, each once, the running task first, idle always in it, stacks disjoint |
| SchedulerSpec.BoundedWaiting | kernel/task.c:156-188 | a ready task that nobody stops is picked within 16 calls of the scheduler, whatever the others spawn, kill, sleep or exit |
| SchedulerSpec.StepWaits | kernel/task.c:156-188 | the measure behind that: distance in the ring plus unused slots never grows and drops with every call |
| SchedulerSpec.ScheduleWakes | kernel/task.c:143-152 | a call of the scheduler makes exactly the sleepers ready whose deadline has passed |
| SchedulerSpec.IdleOnlyWhenNothingElse | kernel/task.c:156-168 | idle is chosen exactly when no other task could run, and a dead or unused one never is |
| SchedulerSpec.NeverWokenEarly | kernel/task.c:143-219 | over a whole run, a sleeping task is not picked before its deadline |
| SchedulerSpec.SavedContext | kernel/task.c:172-188 | the stack pointer kept for a task is the one passed in when it was last switched out, or its first frame |
| SchedulerSpec.ResumesWhereLeft | kernel/task.c:172-188 | over whole runs the scheduler resumes a task exactly where it was left, and never a dead one |
| SchedulerSpec.FirstPickInside | kernel/task.c:78-188 | over whole runs, the first time a task is picked the stack pointer returned is a frame inside its own stack, clear of its end |
| SchedulerSpec.DeadStayDead | kernel/task.c:156-286 | over whole runs, a task once dead is never picked again until its slot is spawned anew |
| SchedulerSpec.ProgramStays | kernel/task.c:67-118 | over whole runs, a slot keeps name, entry point and argument until it is spawned anew |
| SchedulerSpec.StacksConserved | kernel/task.c:78-286 | over whole runs every stack claimed is owned by one task or freed exactly once |
| SchedulerSpec.ReapExactly | kernel/task.c:268-286 | reaping drops exactly the dead tasks, keeps the order of the others, and the stacks it frees are those of the dead, each once |
| SchedulerSpec.FreedInRingOrder | kernel/task.c:268-286 | walking the ring behind the idle task finds every dead task's stack, each once |
| SchedulerRuns.SleepLasts | kernel/task.c:143-219 | over any run that leaves it alone, a task that slept `ms` is asleep and not picked until ms / 10 timer interrupts have come, and the first call of the scheduler after that makes it ready |
| SchedulerRuns.ClockIsTicks | kernel/task.c:143-195 | the clock counts the timer interrupts |
| SchedulerRuns.ExitEnds | kernel/task.c:221-236 | a task that exits is never picked again until its slot is spawned anew |
| SchedulerRuns.KillEnds | kernel/task.c:238-264 | neither is the one live task with the id killed, unless it is idle; nothing else changes |
| SchedulerRuns.KillMisses | kernel/task.c:238-264 | killing an id that no live task has changes nothing |
| SchedulerRuns.IdsFromStart | kernel/task.c:78-118 | over any run with fewer than 2^32 spawns no two live tasks have the same id |
| SchedulerRuns.SpawnedRuns | kernel/task.c:78-118 | with a slot and a stack a new task is ready and, left alone, picked within 16 calls of the scheduler; without, nothing changes |
| SchedulerRuns.Charged | kernel/task.c:172-195 | over any run a task is charged exactly the ticks that hit it and the switches to it |
| TaskTable.Scheduler.constructor | kernel/task.c:120-138 | the initial table holds the idle task alone |
| TaskTable.Scheduler.AllocTask | kernel/task.c:38-45 | the first unused slot |
| TaskTable.Scheduler.ListInsert | kernel/task.c:47-55 | the new task comes right after the running one in the circle |
| TaskTable.Scheduler.ListRemove | kernel/task.c:57-65 | the search for the predecessor ends and unlinks exactly that task |
| TaskTable.Scheduler.Spawn | kernel/task.c:78-118 | table and links after a spawn are the specified ones, with the name cut to its field, the entry point and the argument; no free slot or no stack changes nothing |
| TaskTable.Scheduler.WakeSleepers | kernel/task.c:143-152 | the walk round the circle wakes what the specification wakes |
| TaskTable.Scheduler.PickNext | kernel/task.c:156-168 | the walk finds the specified pick |
| TaskTable.Scheduler.Schedule | kernel/task.c:172-188 | state and returned stack pointer are the specified ones |
| TaskTable.Scheduler.TimerTick | kernel/task.c:191-195 | the tick is charged to the running task |
| TaskTable.Scheduler.SleepMs | kernel/task.c:204-219 | the running task is marked asleep as specified, once there is a running task |
| TaskTable.Scheduler.Exit | kernel/task.c:221-228 | the running task is marked dead, unless it is idle, which panics |
| TaskTable.Scheduler.Kill | kernel/task.c:238-264 | -1 for no such live task, -2 for idle, else the task is marked dead |
| TaskTable.Scheduler.Reap | kernel/task.c:268-286 | the loop that unlinks while it walks ends with the specified ring and table, and frees the stacks of the dead in ring order |
| Bytes.IntegersRoundTrip | fs/persist.c:104-106 | 16 and 32-bit integers read back as written |
| Checksum.StepInjective | fs/persist.c:71-74 | one FNV-1a step is injective in the hash for a fixed byte and in the byte for a fixed hash |
| Checksum.FnvFromInjective | fs/persist.c:67-76 | over the same bytes different start values end in different hashes |
| Checksum.SingleByteDetected | fs/persist.c:67-76 | changing one byte always changes the checksum |
| Checksum.OneDifferenceDetected | fs/persist.c:67-76 | the same for two strings that differ in exactly one place |
| Checksum.Compute | fs/persist.c:67-76 | the loop computes FNV-1a of the first `length` bytes |
| Checksum.Vectors | fs/persist.c:67-76 | the checksums of the empty string and of "a" are the published ones |
| PrintfSpec.ParsePrinted | kernel/shell.c:160-167 | parsing a printed decimal number gives the number back, whatever non-digit follows |
| PrintfSpec.DigitsInjective | lib/printf.c:31-49 | different numbers never print alike |
| PrintfSpec.NoLeadingZero | lib/printf.c:31-49 | no number but 0 starts with a zero, and 0 is a single digit |
| PrintfSpec.DigitsShort | lib/printf.c:36-68 | a number of n bits takes at most n digits, so the 36-byte scratch buffers hold any word |
| PrintfSpec.Pad | lib/printf.c:51-64 | a field is exactly as wide as asked or as its text, whichever is wider |
| PrintfSpec.PlainIsItself | lib/printf.c:70-74 | a format string without a percent sign prints as it is |
| PrintfSpec.RenderPlain | lib/printf.c:70-74 | literal text in front prints as it is and leaves the rest alone |
| PrintfSpec.RenderField | lib/printf.c:97-121 | "%s" and "%u" print the string and the decimal number and pass the remaining arguments on |
| PrintfSpec.SignedField | lib/printf.c:106-117 | "%d" prints sign and absolute value; the width covers the digits only |
| PrintfLaws.NumberSays | lib/printf.c:51-125 | "%u", "%x", "%X" print a numeral of that base and case whose value is the argument, in a field of the width asked for, padded on the right side |
| PrintfLaws.SignedSays | lib/printf.c:106-117 | "%d" and "%i": a minus sign if negative, then the absolute value in its field |
| PrintfLaws.PointerSays | lib/printf.c:126-130 | "%p": "0x" and the address in a field of eight |
| PrintfLaws.TextSays | lib/printf.c:97-105 | "%s": the string or "(null)" in its field, "%c": one byte |
| PrintfLaws.DirectiveRead | lib/printf.c:76-96 | flags, width in decimal and conversion are read back from the directive they spell |
| PrintfLaws.OthersPrint | lib/printf.c:131-139 | "%%" prints a percent sign, an unknown directive itself, and neither takes an argument |
| Printf.FormatUint | lib/printf.c:31-49 | the backwards digit loop gives positional notation |
| Printf.Sink.PutChar | lib/printf.c:13-23 | a character is counted always and stored only while it leaves room for the terminator |
| Printf.Sink.EmitPadded | lib/printf.c:51-64 | padding goes on the right side, with the right character |
| Printf.Sink.Format | lib/printf.c:66-144 | the one-pass loop prints the text that the items of the format string call for |
| Printf.Snprintf | lib/printf.c:156-163 | the buffer gets the longest beginning of the text that fits, a NUL behind it, and nothing else changes |
| Printf.ParseInt | kernel/shell.c:160-167 | the loop computes the value of the leading digits |
| Paths.ComponentsJoin | fs/ramfs.c:76-90 | splitting a joined path gives its names back |
| Paths.ComponentsConcat | fs/ramfs.c:76-90 | a path cut at a slash splits into the components of its two parts |
| Paths.ComponentsWord | fs/ramfs.c:83-87 | a component is cut to 31 characters and its tail skipped |
| Paths.ComponentsAreNames | fs/ramfs.c:83-86 | whatever the path, its components are legal names |
| FsSpec.ResolvePrinted | fs/ramfs.c:181-309 | a printed path leads back to its node exactly within 32 levels and 254 characters and without dot names |
| FsSpec.PrintedNames | fs/ramfs.c:289-308 | beyond those limits strictly fewer names are printed |
| FsSpec.FoldNames | fs/ramfs.c:76-114 | following a node's names from the root leads to the node, if none of them is a dot name |
| FsSpec.FoldDepth | fs/ramfs.c:76-114 | a walk stays in the tree and gets no deeper than its components that go down |
| FsSpec.NamesInjective | fs/ramfs.c:17-41 | no two nodes have the same names above them |
| FsSpec.UnderIsPrefix | fs/ramfs.c:17-41 | lying below a node is having its names in front |
| FsSpec.CreateKeeps | fs/ramfs.c:190-201 | creation keeps parent links, sibling names and the node counter right, changes no other name, and names the new node after the path |
| FsSpec.CreateResolves | fs/ramfs.c:190-201 | after a creation the path leads to the new node exactly if its last component is no dot name |
| FsSpec.CreateFrame | fs/ramfs.c:190-201 | every path that led somewhere before still leads there |
| FsSpec.WriteKeeps | fs/ramfs.c:253-279 | writing a file changes nothing about the shape of the tree |
| FsSpec.WriteResolves | fs/ramfs.c:253-279 | no path leads elsewhere after a file was written |
| FsSpec.PruneKeeps | fs/ramfs.c:203-244 | removal keeps the tree well formed and removes exactly the subtree; the current directory survives exactly if it is not inside |
| FsSpec.RemoveResolves | fs/ramfs.c:218-244 | after a removal a path leads where it did if its walk stayed outside the removed subtree, and nowhere if it did not; no path leads anywhere new |
| FsSpec.FoldAfterPrune | fs/ramfs.c:218-244 | the same for a walk from any node that is left |
| FsSpec.ResetValid | fs/ramfs.c:117-134 | a reset tree is a well-formed bare root |
| PathNames.FoldNormal | fs/ramfs.c:76-114 | a walk gets through exactly if every list of names on its way belongs to a node, and ends at the node of the last: "." keeps the names, ".." drops one, any other component is put behind |
| PathNames.ResolveExactly | fs/ramfs.c:57-188 | `fs_resolve` finds a node exactly if the path leads to it by names, from the root or from the current directory |
| PathNames.DotsLeadUp | fs/ramfs.c:105-108 | "/.." behind the path of a node leads to its parent, and at the root to the root |
| PathNames.CreateExactly | fs/ramfs.c:190-201 | `fs_create` succeeds exactly if all but the last component lead to a directory without such a child, and the new node has the names the path says |
| PathNames.RemovalExactly | fs/ramfs.c:218-244 | exactly when `fs_remove` removes a node, refuses the current directory, or finds nothing to remove |
| PathNames.WriteExactly | fs/ramfs.c:253-279 | a written file holds the bytes, behind the old ones if appended, and nothing else changes |
| PathNames.PrintedExactly | fs/ramfs.c:281-309 | the printed path shows, of the last 32 names, as many as 254 characters hold |
| FsRuns.FoldWalked | fs/ramfs.c:76-114 | a walk that starts at a node without dot names in its path ends at one |
| FsRuns.ApplyWalked | fs/ramfs.c:117-279 | no operation puts anything below a dot name, and the current directory never has one |
| FsRuns.Run | fs/ramfs.c:117-279 | nor does any run of operations |
| RamFs.Walk | fs/ramfs.c:57-115 | the index-driven loop is the fold over the slash-separated components, to the end or up to the last one |
| RamFs.NextComponent | fs/ramfs.c:83-87 | the character loops deliver the next component and skip its over-long tail |
| RamFs.FindChildNode | fs/ramfs.c:43-53 | the sibling walk finds the first child of that name |
| RamFs.PrintPath | fs/ramfs.c:281-309 | the climb and the backward copy print the specified path |
| RamFs.FileSystem.ResolvePath | fs/ramfs.c:181-188 | resolves as specified, the empty path to the current directory |
| RamFs.FileSystem.CreateNode | fs/ramfs.c:190-201 | the tree after a creation is the specified one, and unchanged when the allocation fails |
| RamFs.FileSystem.WriteFile | fs/ramfs.c:253-279 | the contents after a write or an append are the specified ones, and unchanged when the allocation fails |
| RamFs.FileSystem.ResetTree | fs/ramfs.c:117-134 | the recursive freeing leaves the root alone and the counter at 1 |
| RamFs.FileSystem.FreeSubtree | fs/ramfs.c:203-216 | frees exactly the node and what is below it, and counts each once |
| RamFs.FileSystem.RemoveNode | fs/ramfs.c:218-244 | -1 or -2 and no change, or the tree without exactly that subtree |
| AccountSpec.ImportKeeps | kernel/users.c:212-235 | an import keeps names unique and every field within its limits |
| AccountSpec.AddKeeps | kernel/users.c:154-183 | so does adding an account |
| AccountSpec.AddTakes | kernel/users.c:154-183 | a new account fills one free slot and changes nothing else; a refused one changes nothing |
| AccountSpec.AddFresh | kernel/users.c:175-178 | a new ordinary account's id is no one else's and not 0, and the next one's will be too, exactly until the counter wraps |
| AccountSpec.ImportFresh | kernel/users.c:231-232 | an import keeps later ids fresh exactly unless it brings the largest id there is |
| AccountSpec.HomeIsThere | kernel/users.c:185-205 | where /home is a directory, the path of a new ordinary account's home leads somewhere afterwards |
| AccountSpec.MakeHomeKeeps | kernel/users.c:185-205 | making a home keeps the tree well formed |
| AccountSpec.DeleteKeeps | kernel/users.c:237-251 | a deleted name is gone, an administrator or the one logged in never is |
| AccountSpec.ImportAppends | kernel/users.c:212-235 | importing into a table filled from the front appends the account |
| AccountSpec.ListedFacts | kernel/users.c:102-114 | the accounts listed are exactly the active slots |
| AccountSpec.SyncKeeps | kernel/users.c:55-77 | rewriting /etc/passwd keeps the tree well formed |
| AccountSpec.SyncOnBareTree | kernel/users.c:55-77 | on a tree without /etc it changes nothing |
| AccountSpec.PasswdLineFormatted | kernel/users.c:70-72 | an account's line is what its format string prints, cut to the 160-byte buffer |
| AccountLaws.Added | kernel/users.c:154-183 | the first reason to refuse decides the answer; otherwise the account is there with name, hash, ids and home, and every other account is as it was |
| AccountLaws.Imported | kernel/users.c:212-235 | an imported account is there as it was saved, but for a home longer than 63, and every other is as it was |
| AccountLaws.Deleted | kernel/users.c:237-251 | exactly when a deletion is refused and how; otherwise that account is gone and every other is as it was |
| AccountLaws.PasswdHolds | kernel/users.c:55-77 | where /etc is a directory, /etc/passwd ends up as a file with the lines of all accounts |
| AccountLaws.HomeMade | kernel/users.c:185-205 | where /home is a directory, a new account's home and the note in it are made |
| Accounts.AccountTable.FindUser | kernel/users.c:116-126 | the slot of the account with that name |
| Accounts.AccountTable.At | kernel/users.c:102-114 | the n-th active account in slot order |
| Accounts.AccountTable.SyncPasswd | kernel/users.c:55-77 | the file holds one line per account, in order, and is created if it can be |
| Accounts.AccountTable.ImportUser | kernel/users.c:212-235 | table, code and /etc/passwd after an import are the specified ones |
| Accounts.AccountTable.AddUser | kernel/users.c:154-207 | table, code, home directory, note and /etc/passwd after adding an account are the specified ones |
| Accounts.AccountTable.DeleteUser | kernel/users.c:237-251 | table, code and /etc/passwd after a deletion are the specified ones |
| SnapshotFormat.LoadUserBack | fs/persist.c:167-399 | a stored account is read back field by field and the cursor ends behind it |
| SnapshotFormat.LoadUsersBack | fs/persist.c:163-400 | so is a list of them, in order |
| SnapshotFormat.LoadNodeBack | fs/persist.c:116-430 | a stored node is read back and replayed |
| SnapshotFormat.LoadNodesBack | fs/persist.c:139-430 | so is a list of them, in order |
| SnapshotTree.Rebuild | fs/persist.c:139-430 | replaying the records of a subtree under a copy of its directory grows exactly that subtree, in the same order, and disturbs nothing else, if every path fits and nothing lies below a dot name |
| SnapshotTree.RestoreForest | fs/persist.c:384-430 | under the same condition a bare tree that replays all records holds the same nodes, kinds, contents and sibling order |
| SnapshotTree.RecordsOk | fs/persist.c:116-146 | the records of any tree are within the limits of the format if the snapshot as a whole is |
| SnapshotExact.RestoredExactly | fs/persist.c:116-430 | replaying the records of any tree gives the same forest exactly if every path fits and nothing lies below a dot name |
| SnapshotExact.TotalIsWeight | fs/ramfs.c:17-41 | the depths of all nodes add up to the weight of the forest, so equal forests have equal sums |
| SnapshotExact.RecordsReach | fs/persist.c:116-146 | the paths stored for a tree go down at most as often as its nodes lie deep, and just as often only if every node meets that condition |
| SnapshotExact.ReplayAllTotal | fs/persist.c:402-430 | replaying records adds at most as much depth as their paths go down |
| SnapshotExact.MadeTreesComeBack | fs/persist.c:116-430 | a tree made by any run of operations comes back exactly if all its paths fit the path printer |
| SnapshotLaws.LittleEndian | fs/persist.c:104-106 | numbers are stored lowest byte first |
| SnapshotLaws.SuperLayout | fs/persist.c:36-45 | where each field of the superblock lies |
| SnapshotLaws.SuperSays | fs/persist.c:189-198 | what the superblock of a save says |
| SnapshotLaws.AccountLayout | fs/persist.c:167-171 | where each field of a stored account lies |
| SnapshotLaws.NodeLayout | fs/persist.c:116-135 | where each field of a stored node lies |
| SnapshotLaws.PartIsBad | fs/persist.c:231-430 | a proper beginning of a payload is never restored as if it were all of it, whatever its checksum |
| PersistSpec.SuperBack | fs/persist.c:190-198 | a superblock reads back as written |
| PersistSpec.MountLocates | fs/persist.c:294-323 | a mount that finds a disk ends at a location that respects the preference for an existing snapshot and for the data disk |
| PersistSpec.LocatedStays | fs/persist.c:148-476 | between boots every operation keeps the location one that the next boot will choose |
| PersistSpec.LocatedRun | fs/persist.c:148-476 | so does every run whose boots can read the disks, whenever there is a disk to save to |
| PersistSpec.RestoreBack | fs/persist.c:381-437 | reading a stored payload never goes bad; it gives the same accounts, and the same forest exactly if every path fits and nothing lies below a dot name |
| PersistSpec.PayloadEmpty | fs/persist.c:163-175 | the payload is empty exactly for no accounts and a bare root |
| PersistSpec.SaveThenMount | fs/persist.c:148-444 | after a successful save and a reboot: same location, accounts and counters, and the same forest exactly under that condition; a snapshot of nothing, and only that, mounts as an error, which changes nothing |
| PersistRuns.FlushedIsSafe | kernel/shell.c:1186-1199 | over whole sessions of edits, saves, flushes and boots, failing in any way: once a flush has answered 0, a boot brings back tree and accounts as they are then |
| PersistRuns.NothingToLose | fs/persist.c:148-476 | at any moment a machine that is not dirty loses nothing when the plug is pulled |
| PersistRuns.TurnKeeps | fs/persist.c:148-476 | behind that: unless it is dirty, the disk has exactly what a save would write, which makes a failing save harmless |
| PersistRuns.EditIsFlushed | fs/persist.c:468-476 | after an edit a flush with a working device answers 0 exactly if the snapshot fits limit and disk; then the disk is up to date, otherwise it is untouched and the edit still pending |
| PersistRuns.CleanFlushIsIdle | fs/persist.c:471-476 | after a save that answered 0 a flush writes nothing |
| PersistRuns.LoadedFlushIsIdle | fs/persist.c:440-476 | nor does one after a boot that loaded |
| PersistRuns.SameForestSamePayload | fs/persist.c:116-146 | equal forests are stored alike, whatever the identities of their nodes |
| PersistRuns.SaveAnswers | fs/persist.c:148-208 | a save answers with the first reason that applies |
| PersistRuns.FormatAnswers | fs/persist.c:446-463 | so does a format, and what it leaves of the state |
| PersistRuns.MountHarmless | fs/persist.c:325-379 | a mount writes nothing, and changes nothing unless it restored something |
| PersistSpec.CrashPoints | fs/persist.c:182-208 | however a save ends, the disk has some first payload sectors of it, or all of it |
| PersistSpec.TornMount | fs/persist.c:200-379 | after a torn payload a mount gives what it gave before or an error that changes nothing; a snapshot that mounted before survives exactly if the bytes its superblock vouches for are intact |
| PersistSpec.TornIntact | fs/persist.c:182-204 | after k sectors of a save those bytes are intact exactly if the new padded payload agrees with them in its first min(512 k, length) bytes |
| PersistSpec.OldSnapshotSurvives | fs/persist.c:200-379 | so a snapshot outlives a save cut off after k sectors exactly under that condition on the two payloads |
| PersistSpec.CrashSafety | fs/persist.c:182-379 | after any crash of any save a mount gives the old result, the new snapshot as a completed save would, or an error that leaves tree and accounts alone, unless a torn payload has the vouched-for checksum |
| PersistSpec.CorruptByteDetected | fs/persist.c:375-379 | one wrong payload byte always makes the mount an error that leaves tree and accounts alone |
| PersistSpec.OldSnapshotCanBeLost | fs/persist.c:200-204 | a disk on which one sector of a save destroys a snapshot that mounted before |
| PersistSpec.ErrorIsOverwritten | fs/persist.c:148-218 | after a mount that failed, with a working device, the next save succeeds, and replaces the damaged superblock, exactly if the new snapshot fits payload limit and disk |
| PersistSpec.DamagedSnapshotIsReplaced | kernel/kernel.c:98-113 | a disk with a damaged snapshot on which that happens |
| PersistSpec.SaveConfined | fs/persist.c:148-218 | a save touches only superblock and payload sectors of its data area |
| PersistSpec.BootSectorsSafe | fs/persist.c:148-476 | over every run of saves, flushes, formats and reboots nothing outside the data areas changes |
| PersistSpec.FormatWipes | fs/persist.c:446-463 | a successful format leaves a zeroed superblock and the seal set |
| PersistSpec.WipedStays | fs/persist.c:150-151 | under the seal every operation leaves the disks alone, and a save answers -5 |
| PersistSpec.SealHolds | fs/persist.c:53-57 | so does every run of operations until the next boot |
| PersistSpec.FormatThenMount | fs/persist.c:294-354 | the mount after a format is blank exactly if the other location has nothing to offer |
| PersistStore.Device.WriteRun | drivers/ata.c:161-235 | chunks of 255 sectors, sector by sector, are one ordered write that may stop anywhere |
| PersistStore.Device.ReadRun | drivers/ata.c:202-230 | chunked reading delivers the sectors in order |
| PersistStore.Writer.PutBytes | fs/persist.c:94-102 | what was to be stored is stored, or the overflow flag is set exactly when it did not all fit |
| PersistStore.Writer.PutAccount | fs/persist.c:167-171 | an account goes out in the stored form |
| PersistStore.Writer.PutNode | fs/persist.c:116-135 | a node goes out as its record |
| PersistStore.WriteTree | fs/persist.c:139-146 | the recursive writer stores the records depth first and counts them |
| PersistStore.ByteReader.TakeBytes | fs/persist.c:231-240 | the cursor moves on or goes bad, never past the end |
| PersistStore.ByteReader.Name | fs/persist.c:263-275 | a string that would not fit its buffer makes the reader bad |
| PersistStore.Store.PutAccounts | fs/persist.c:163-173 | the loop stores all accounts in slot order |
| PersistStore.Store.Serialise | fs/persist.c:159-180 | the buffer holds the payload, or overflow is reported exactly when it exceeds 1 MiB |
| PersistStore.Store.SaveSnapshot | fs/persist.c:148-218 | machine and code after `persist_save` are the specified ones |
| PersistStore.Store.FlushSnapshot | fs/persist.c:471-476 | saves as specified when something changed, and otherwise answers 0 |
| PersistStore.Store.FormatStore | fs/persist.c:446-463 | machine and code after `persist_format` are the specified ones |
| PersistStore.Store.LoadAccount | fs/persist.c:386-399 | one turn of the account loop, stopping at a bad reader |
| PersistStore.Store.LoadTreeNode | fs/persist.c:402-430 | one turn of the node loop, with all its ways to go bad |
| PersistStore.Store.RestoreAll | fs/persist.c:381-437 | both loops together restore as specified |
| PersistStore.Store.ProbeAt | fs/persist.c:278-289 | a drive is probed as specified |
| PersistStore.Store.MountSnapshot | fs/persist.c:325-344 | machine and status after `persist_mount` are the specified ones |
| PersistStore.Store.MountHere | fs/persist.c:346-444 | so they are from the superblock on |
| DisplaySpec.PutPlain | drivers/vga.c:155-206 | a printable character lands in the cell at the cursor, the cursor moves on by one, and no other cell ever shown changes, scrolling or not |
| DisplaySpec.PutBack | drivers/vga.c:176-185 | a backspace goes back one cell, across line starts, and blanks it; nothing else changes |
| DisplaySpec.ScrolledTape | drivers/vga.c:80-90 | scrolling moves lines to the archive without changing the tape of lines |
| DisplaySpec.ClearKeepsText | drivers/vga.c:105-135 | clearing archives every row with text in it, in order |
| DisplaySpec.UsedRows | drivers/vga.c:105-117 | the rows archived end with the last one that has text |
| DisplaySpec.ScrollingIsHarmless | drivers/vga.c:228-249 | scrolling about changes only the view, and coming back shows the live screen |
| DisplaySpec.WindowIsTape | drivers/vga.c:55-70 | row r of the display is the line `view` lines above live row r |
| DisplaySpec.OutputIsLive | drivers/vga.c:159-163 | after any output the live screen is in view |
| DisplayLaws.ControlsMove | drivers/vga.c:155-206 | newline, carriage return and tab move the cursor to the next line, the start of this one, the next multiple of four; no cell changes |
| DisplayLaws.ClearBlanks | drivers/vga.c:105-135 | clearing leaves 25 blank lines and the cursor at the first, and archives just the rows in use |
| DisplayLaws.ColorsStick | drivers/vga.c:152-206 | characters go out in the colours set last |
| DisplayLaws.CursorMoves | drivers/vga.c:214-223 | the cursor goes where it is sent, or to the nearest place on the screen |
| DisplaySpec.Monotone | drivers/vga.c:72-135 | over every run of operations the archive only grows |
| DisplaySpec.Run | drivers/vga.c:92-249 | the cursor stays on the screen and the view within the kept lines, over every run of operations |
| Display.RingPush | drivers/vga.c:72-78 | pushing keeps the ring holding the last 512 lines in order |
| Display.Vga.constructor | drivers/vga.c:137-150 | the display starts blank, with nothing to scroll back to |
| Display.Vga.ScrollbackLine | drivers/vga.c:48-53 | the slot arithmetic finds the kept line meant |
| Display.Vga.Repaint | drivers/vga.c:55-70 | video memory shows exactly the window at the view offset |
| Display.Vga.PushScrollback | drivers/vga.c:72-78 | one more line in the archive, and the ring still right |
| Display.Vga.ScrollUpOne | drivers/vga.c:80-90 | the row copies scroll as specified |
| Display.Vga.ArchiveScreen | drivers/vga.c:105-121 | pushes the rows in use and no others |
| Display.Vga.PutChar | drivers/vga.c:155-206 | state, video memory and cursor register after a character are the specified ones |
| Display.Vga.Write | drivers/vga.c:208-212 | a string is its characters one by one |
| Display.Vga.ClearScreen | drivers/vga.c:123-135 | the same for clearing |
| Display.Vga.SetCursor | drivers/vga.c:214-223 | the cursor is clamped to the screen |
| Display.Vga.ScrollBy | drivers/vga.c:228-241 | the view is clamped and video memory follows |
| Display.Vga.ScrollToBottom | drivers/vga.c:243-249 | back to the live screen |
| LineSpec.EditKeeps | kernel/console.c:74-170 | whatever the key, the line fits, `drawn` counts the characters on display, and the cells from the end of the prompt to the cursor spell the line or its stars and nothing after it |
| LineSpec.AlwaysAgrees | kernel/console.c:64-171 | the same over every sequence of keys, from any display |
| LineSpec.PromptStays | kernel/console.c:64-171 | without Ctrl-L nothing that stood before the line changes, across wrapping and scrolling |
| LineSpec.UpRecalls | kernel/console.c:123-153 | n presses of the up arrow recall the n-th last line, cut to the buffer |
| LineSpec.RedrawAgrees | kernel/console.c:56-62 | rubbing out and drawing again leaves the new line and nothing of the old one |
| LineSpec.EraseAll | kernel/console.c:58-59 | that many backspaces rub out exactly what was drawn |
| LineSpec.TypeAll | kernel/console.c:49-53 | echoed text ends up in the cells after the line |
| LineSpec.RememberKeeps | kernel/console.c:14-25 | a line pushed is the one recalled last, and older ones stay |
| LineSpec.NoRepeats | kernel/console.c:18-20 | no line is kept twice in a row |
| LineLaws.EnteredByKeys | kernel/console.c:64-171 | without arrow keys the line entered is a fold over the keys: printable ones are appended while there is room, backspace drops one, Ctrl-U all |
| LineLaws.TypedIsEntered | kernel/console.c:159-169 | text that fits is entered as typed |
| LineLaws.DisplaySays | kernel/console.c:41-62 | after any keys the cells behind the prompt hold the line itself, as many stars, or nothing, as the mode says |
| LineLaws.RepaintShows | kernel/console.c:101-107 | Ctrl-L clears the screen, puts out the prompt and draws the line behind it |
| LineLaws.DownRecalls | kernel/console.c:131-153 | n presses of the down arrow come n lines forward, and end at an empty line |
| LineLaws.UpStops | kernel/console.c:131-145 | the up arrow stops at the first line entered and at the 16th last |
| LineLaws.PlaceStays | kernel/console.c:77-169 | no other key moves the place in the history |
| LineLaws.ScrollKeys | kernel/console.c:115-129 | page up, page down and, without history, the arrows move the view by so many lines and change nothing else |
| LineEditor.Console.HistoryPush | kernel/console.c:14-25 | the ring of 16 holds the last lines entered |
| LineEditor.Console.HistoryAt | kernel/console.c:32-39 | a line still in the ring, or nothing |
| LineEditor.Console.EchoString | kernel/console.c:41-53 | the characters, stars or nothing, as the mode says |
| LineEditor.Console.RedrawLine | kernel/console.c:56-62 | display and count after a redraw are the specified ones |
| LineEditor.Console.ArrowKey | kernel/console.c:123-153 | line, display and place in the history after an arrow key are the specified ones |
| LineEditor.Console.HandleKey | kernel/console.c:77-169 | so they are after any key that does not end the line |
| LineEditor.Console.ReadLine | kernel/console.c:64-171 | for every sequence of keys the buffer holds the line, NUL-terminated and within its size, and the display is the specified one |
| KeyRingSpec.InOrder | drivers/keyboard.c:35-137 | wherever interrupts fall between the reader's steps, the keys delivered are a prefix of the keys accepted |
| KeyRingSpec.PushExactly | drivers/keyboard.c:35-43 | a key is refused exactly when 127 are unread, and accepting one overwrites no unread slot |
| KeyRingSpec.StepKeeps | drivers/keyboard.c:35-137 | every step of handler and reader keeps the ring sound |
| KeyRingSpec.ZeroMeansEmpty | drivers/keyboard.c:132-133 | the reader finds nothing exactly when nothing was unread when it read `head` |
| KeyRingSpec.NoneDropped | drivers/keyboard.c:37-40 | all keys pressed are accepted exactly if none arrives while 127 are unread |
| KeyRingSpec.PollDelivers | drivers/keyboard.c:128-137 | with any keys arriving in its gaps a poll delivers the oldest unread key, or 0 exactly when there was none |
| KeyDecode.NeverZero | drivers/keyboard.c:45-120 | no key is ever pushed as 0, and special keys stay apart from characters |
| KeyDecode.Letters | drivers/keyboard.c:101-117 | a letter is a capital exactly when one of shift and caps lock is on; Ctrl gives its control code either way |
| KeyLaws.ExtendedKeys | drivers/keyboard.c:51-74 | behind the prefix the nine special keys are reported when pressed, and nothing else |
| KeyLaws.ModifierKeys | drivers/keyboard.c:76-100 | shift and Ctrl hold while down, caps lock toggles, and neither they nor releases are keys |
| KeyLaws.ShiftHolds | drivers/keyboard.c:76-120 | a letter is a capital from the moment shift goes down until it comes up |
| KeyLaws.Rows | drivers/keyboard.c:10-25 | the rows of letters and digits lie at their scancodes |
| KeyLaws.ControlLetters | drivers/keyboard.c:112-117 | Ctrl-C, Ctrl-L and Ctrl-U are 3, 12 and 21 |
| Keyboard.KeyboardDriver.Callback | drivers/keyboard.c:45-120 | modifiers and ring after a scancode are the specified ones |
| Keyboard.KeyboardDriver.PushKey | drivers/keyboard.c:35-43 | the ring after a push is the specified one |
| Keyboard.KeyboardDriver.Poll | drivers/keyboard.c:128-137 | a poll interrupted in all its gaps does what the interleaved steps do; 0 exactly for an empty ring |
| PermissionSpec.MayWriteIsAncestry | kernel/users.c:285-301 | for anyone but an administrator the string test holds exactly for nodes at or below the node that the home path or /tmp names |
| PermissionSpec.CoversMeansWithin | kernel/users.c:292-300 | the same for any string as home, also an empty or odd one |
| PermissionSpec.HomeIsSubtree | kernel/users.c:292-296 | for a home that is a node's path it is that node's subtree |
| PermissionSpec.SpotIsTarget | kernel/shell.c:111-133 | splitting at the last slash finds the directory and the name that `fs_create` will use |
| PermissionSpec.CreateConfined | kernel/shell.c:96-150 | any node that a permitted creation adds, in a directory at most 32 levels deep, lies in the home or in /tmp, for every home but an empty one, "/" and those whose last name is too long; also for paths through `..`, ending in dot names, or too long |
| WriteCheck.CheckThere | kernel/shell.c:98-150 | for a path that leads to a node within the path limits the check passes exactly for the administrator and for those in whose home or in /tmp the node lies |
| WriteCheck.CheckIsAncestry | kernel/shell.c:98-150 | the same by the nodes that home path and "/tmp" name |
| WriteCheck.CheckNew | kernel/shell.c:107-150 | for a path that leads nowhere yet, exactly by where `fs_create` would put the node |
| WriteCheck.RemovalConfined | kernel/shell.c:1079-1090 | all that a permitted removal takes away lies there |
| WriteCheck.OverwriteConfined | kernel/shell.c:412-434 | a permitted write changes one file, which lies there |
| PermissionSpec.GivenHomesAreSafe | kernel/users.c:170-181 | the homes that `users_add` gives are of that kind |
| PermissionSpec.EmptyHomeEscapes | kernel/users.c:212-301 | an import accepts an empty home, and with it every creation passes the check |
| PermissionSpec.SlashHomeEscapes | kernel/users.c:285-301 | with "/" for a home, which covers no other path, a node can be made in any root that has no "." yet |
| PermissionSpec.LongHomeEscapes | kernel/users.c:285-301 | so it can with any home whose last name is too long, where its directory exists |
| PermissionSpec.DeepParentEscapes | kernel/shell.c:96-150 | in any directory 33 levels deep a creation passes for one inside whatever its names without the first spell |
| Permissions.TargetPath | kernel/shell.c:99-134 | the path checked is the specified one |
| Permissions.MayWriteAt | kernel/shell.c:136-150 | the shell's check is the specified one |
| InstallSpec.InstalledFacts | kernel/install.c:72-111 | a successful installation leaves boot sector, kernel and a wiped superblock, and every other sector as it was |
| InstallSpec.SuccessIsFaultless | kernel/install.c:85-110 | an installation that reports success met no write fault |
| InstallSpec.InstallAnswers | kernel/install.c:72-111 | an installation answers with the first reason that applies; 2112 sectors are enough |
| InstallSpec.WipedLast | kernel/install.c:85-108 | unless the last write was tried, the data area is untouched |
| InstallSpec.StaysBootable | kernel/install.c:72-111 | no run of saves, flushes, formats and reboots changes boot sector or kernel on a master, nor on a slave that the snapshot never lives on |
| InstallSpec.InstallThenMount | fs/persist.c:294-354 | on either drive, exactly when the first boot is blank: for a master, if no data disk carries a superblock and, without one, the disk has more than 2112 sectors; for a slave, if its boot sector does not look like a superblock and the master carries none |
| InstallSpec.FirstLocation | fs/persist.c:294-323 | where that boot looks: a slave whose boot sector does not look like a superblock is its own data disk exactly if the master carries no snapshot |
| InstallSpec.SurvivesFirstWrite | fs/persist.c:148-463 | the first successful save or format leaves the installed disk bootable exactly if it is the master, or the master already carries a snapshot |
| InstallSpec.TargetSurvives | kernel/install.c:57-70 | for the drive the installer picks: exactly if there is a master |
| InstallSpec.SlaveIsOverwritten | kernel/install.c:57-111 | a lone slave that boots once and no more after its first save |
| InstallSpec.SmallestDiskIsNotSeen | kernel/install.c:82-83 | on a disk of 2112 sectors installation succeeds and the installed system finds no disk |
| Installer.InstallToDisk | kernel/install.c:72-111 | disks and code after `install_to_disk` are the specified ones |
| Limits.DotFile | fs/ramfs.c:190-201 | `fs_create` makes a file "." that its path does not lead to, and that nevertheless comes back from a snapshot |
| Limits.DeepPathIsCut | fs/ramfs.c:281-309 | a directory 33 levels deep, made by `fs_create`, whose printed path does not lead back |
| Limits.DeepTreeIsLost | fs/persist.c:116-430 | saved and mounted again, that tree is another one |
| Limits.DeepTmp | kernel/shell.c:96-150 | a directory "/a/tmp/a/...", made by `fs_create`, in which whoever may write to /tmp may make a file |
| Limits.CwdRemoved | fs/ramfs.c:218-244 | the directory above the current one is removed without complaint, and the current one dangles |
| Limits.UidWraps | kernel/users.c:175-232 | an import with the largest id, after which an ordinary account gets id 0 |
| Limits.HugeRequest | kernel/mem.c:121-143 | on any fresh heap `kmalloc(0xFFFFFFFF)` hands out a block of no bytes |
| HeapLimits.SecondFreePanics | kernel/mem.c:100-187 | on any fresh heap: five calls after which a second `kfree` panics |
| HeapLimits.SecondFreeRunsWild | kernel/mem.c:100-187 | on any fresh heap: nine calls after which a second `kfree` runs wild, and turns a size of 256 into 257 |
| Limits.NothingMountsAsError | fs/persist.c:148-379 | an empty system saves with success and mounts as an error |

## Left out

- Port I/O, interrupt controllers, timers, serial, mouse, the real-time clock and CD and boot assembly: not visible as state. Masked sections are single steps.
- `kcalloc`, the memory map printout and the 64-bit totals of kernel/mem.c.
- KernelMemory.KernelHeap.Free: after a free that runs wild only the bytes it stores are stated. All of memory counts as RAM.
- HeapRuns.SecondFree: remains of a header that an owner has stored over, or where a block starts again; what the bytes then say decides.
- LineEditor.Console.HistoryPush: the ring keeps each line as a string value, not as a 256-byte buffer.
- TaskTable.Scheduler.SleepMs: not the busy wait that stands in for sleeping before the scheduler starts.
- The rest of a task's first frame, and wrap-around of the 64-bit tick counter.
- The `next` links of the task table are an array beside the tasks.
- Nodes of the tree have increasing identities in place of addresses that are reused, and a directory keeps its children as a sequence in place of sibling links. The order of children is modelled, the reuse of freed memory is not.
- The buffer `last` of `fs_create` counts as initialised; for a 31-character name the kernel leaves its last byte as it was.
- RamFs.FileSystem.CreateNode: when the heap has no room is a parameter, and so it is for RamFs.FileSystem.WriteFile, where the spare capacity of file buffers decides whether room is needed. Making homes, /etc/passwd and mounting assume that there is.
- Accounts.AccountTable.AddUser: what the password hashes to and the words of the note are parameters; nothing is said about the strength of the hash.
- Logging in, changing passwords and the setup wizard.
- PersistStore.Store.LoadTreeNode: not the 32-bit wrap of a data length near 2^32 in a snapshot made by hand.
- SnapshotExact.MadeTreesComeBack: runs in which no directory above the current one is removed, since the kernel then follows freed memory.
- InstallSpec.SurvivesFirstWrite: boot sectors that start with `cli`, as the one in boot/boot.asm:28 does.
- PersistSpec.CrashSafety: a single sector is written whole or not at all, and a torn payload is assumed not to have the checksum the old superblock vouches for.
- PersistRuns.FlushedIsSafe: boots in the middle of a session are of systems that are not dirty, not empty and of which every node can be stored; PersistSpec.SaveThenMount says what becomes of others.
- WriteCheck.CheckThere: nodes beyond the limits of the path printer, of which `PermissionSpec.DeepParentEscapes` has an example.
- WriteCheck.CheckNew: paths that end in a slash, which the check refuses, or in a name too long for a node, of which it looks at the whole (`PermissionSpec.LongHomeEscapes`).
- SchedulerRuns.SleepLasts: the task is left alone, so runs in which it is killed while asleep are those of SchedulerRuns.KillEnds.
- KeyRingSpec.InOrder: one reader at a time, as the kernel has one session reading the keyboard.
- Races between the mouse handler and `vga_clear` or `vga_scroll_view`: operations on the display follow one another.
- Display.Vga.ScrollBy: the sum of view and step does not overflow, which holds for the steps the kernel uses.
- Printf.Snprintf: format strings that end inside a directive, arguments of the wrong kind and "%d" of the smallest integer, none of which the kernel contains. Console output of the formatter is its text through `vga_putc`.
- Printf.ParseInt: numbers too large for an int.
- PermissionSpec.CreateConfined: directories more than 32 levels deep, for which `PermissionSpec.DeepParentEscapes` shows that it can fail.
- Shell commands, help, prompts, the installer's screens, `fs_init` and the boot sequence.
