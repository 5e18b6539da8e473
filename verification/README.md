# A verified model of the m1keOS kernel

m1keOS is a single-address-space x86 kernel written in C: its allocator, scheduler, filesystem,
text formats and pixel code use no library. These Dafny modules model the six of its parts that
carry the most state and prove what those parts are relied on for.

Code that works by changing things step by step is modelled by classes, arrays and loops: the heap
is a memory of bytes with its block headers encoded in it, the task table is an array of control
blocks with a `next` ring, the frame map is an array of bytes, parsers fill fixed character buffers.
Every such method is proved to refine a function on plain values (the list of blocks, the run queue,
the tree of nodes, the lines of a configuration file), and the properties are lemmas about those
values, about single steps and about whole runs.

| modules | what they model |
|---|---|
| `Memory`, `BlockList`, `Heap`, `HeapRuns`, `HeapClient` | the first-fit heap of `kernel/mm/heap.c`: the byte arena, the list of blocks it encodes, runs of calls, and the view of a heap user |
| `RoundRobin`, `Scheduler`, `SchedulerRuns`, `Context` | the scheduler of `kernel/process/process.c`: the policy and its runs, the task table and ring that refine it, runs of calls on the table, and `switch_context` on registers and stack words |
| `FsTree`, `FsPaths`, `FsRemoval`, `FsGrowth`, `Ramfs`, `FileText` | the filesystem of `kernel/fs/ramfs.c` on top of that heap: trees of linked nodes, paths, removal, creation and file contents, and strings stored in files |
| `Strings`, `Printf` | number conversion and the bounded printer of `kernel/lib` |
| `ConfigTable`, `ConfigExact`, `Config`, `ConfigRestart`, `ConfigBoot`, `ConfigStore` | the configuration store of `kernel/core/config.c`: the table and its text, which tables come back from it, the buffers, which tables survive a restart, the defaults, and the file |
| `Sheet`, `SheetText`, `SheetSave`, `SheetFormat`, `M1ss`, `Theme`, `ThemeStore` | the stylesheets of `kernel/gui/m1ss.c`: the grammar the code accepts, how text is read, what a saved theme reads back as, the buffers, and the file |
| `Image`, `Blur`, `Rounded`, `Clipping`, `Repaint` | pixel arithmetic of `kernel/drivers/console.c` and the repaint at the end of the loop of `kernel/gui/desktop.c` |
| `Pmm`, `Keyboard` | the frame bitmap of `kernel/mm/pmm.c` and the interrupt-driven ring of `kernel/drivers/keyboard.c` |

`dafny verify dfyconfig.toml` checks everything. Every induction is spelled out: a lemma for which
Dafny would look for one by itself carries `{:induction false}`.

## Where the code falls short of what it promises

The model follows the code. Where a property one would expect is false of it, a lemma shows the
failure and another gives the exact condition under which the property holds.

- **Heap.** `align_up` wraps for requests above 2^32 - 8, which then yield a block that is too
  small (`WrappedRequest`, `AllocatedSizeIff`). `kmalloc` hands such a block out; `kcalloc` goes on
  to zero bytes past the whole arena (`ZeroingFitsIff`), and `krealloc` to copy the old contents
  over the next header (`CopyFitsIff`), so runs are runs of calls that stay below that bound.
- **Scheduler.** `alloc_pcb` reclaims the slot of a dead task without unlinking it, after which
  `next` no longer visits all used slots (`ReclaimBreaksRing`); `task_create` keeps a ring exactly
  when some slot is unused or no task is dead (`SpawnKeepsRingIff`). The theorems about runs are
  for runs that do not take that branch.
- **Filesystem.** `fs_create` compares the whole name but stores 63 characters of it, so a longer
  name can be created twice (`LongNameTwice`, `CreateKeepsNamesIff`), and it takes names that a path
  cannot spell: after `mkdir a/b` the path of the new directory leads nowhere (`SlashNameLost`), and
  `fs_mkdir_p("..")` makes a directory that `fs_resolve` does not enter (`DotDotIsUp`). A printed
  path leads back to its node exactly when the node is at most 32 deep, the path fits, every name on
  the way is neither empty nor "." nor ".." and has no slash, and every node on the way is the first
  of its siblings with its name (`PathRoundTrip`). What `fs_mkdir_p` and `fs_put` make is found under
  the same path exactly when its components are such names of at most 63 characters
  (`MkdirResolvesIff`, `PutResolvesIff`).
- **Configuration.** A key of 48 characters or more is stored cut and never found again, and a
  value of 80 or more comes back cut (`GetAfterSetIff`, `SetKeepsDistinctIff`). `config_set` accepts
  text that a line cannot carry: `m1kectl config set a=b c` comes back as `a` = `b = c`
  (`EqualsSignMoves`, `OddKeyLost`). A table comes back from its text exactly when its entries are
  clean and its keys distinct (`ReloadRebuildsIff`). A key of 48 characters set to `1` and then to
  `2` takes two slots; a get of the cut key answers `1`, and after the next start `2`
  (`LongKeySetTwice`, `LongKeyChanges`). Every get answers after a restart as before exactly when
  every key is clean, so is every value a get finds, and the last value under a key is read back as
  that one (`BootRestoresIff`, and `RunRestoresIff` for every table that calls of `config_set` with
  strings without a newline can make); for distinct keys that means that all entries are clean
  (`SurvivesIff`).
- **Stylesheets.** The value parser skips a comment after ':', and '#' starts one, so saved colours
  are not read back and the declaration behind one is lost with it: `wallpaper` goes with `accent`,
  and the second colour of a pair with the first. Saving and reloading gives the theme back exactly
  when the seven settings concerned have their defaults (`SaveReloadIff`); `theme set accent rose`
  is undone by the next reload (`RoseLost`).
- **Clipping.** A rectangle that ends before the origin is widened to the whole screen by an
  unsigned comparison (`ClipExactIff`).
- **Frames.** An available region that does not begin on a page boundary frees a frame that begins
  before it (`CoversInsideIff`). Regions are as in section 3.3 of the Multiboot Specification
  0.6.96, type 1 being available memory.

## Model

| member | source | states |
|---|---|---|
| `BlockList.AlignUpCovers` | kernel/mm/heap.c:35 | rounding up covers the request, by less than 8 bytes, if and only if the 32-bit addition does not wrap; a wrapped request becomes 0 |
| `BlockList.AllocateGives` | kernel/mm/heap.c:37-60 | a successful allocation adds exactly one live block, new, 8-aligned and at least as large as the request rounded by `align_up`; tiling, alignment and maximal coalescing survive |
| `BlockList.AllocatedSizeIff` | kernel/mm/heap.c:35-60 | the block handed out is at least as large as the request if and only if the request is at most 2^32 - 8 |
| `BlockList.ZeroingFitsIff` | kernel/mm/heap.c:98-103 | the bytes `kcalloc` zeroes lie in its block if and only if the product is at most 2^32 - 8; otherwise they run past the end of the arena |
| `BlockList.CopyFitsIff` | kernel/mm/heap.c:112-118 | the bytes `krealloc` copies when it moves a block fit the new one if and only if the request is at most 2^32 - 8 or the first free block is too small to split and has room for them |
| `BlockList.AllocateFails` | kernel/mm/heap.c:37-60 | a positive request fails if and only if no free block is large enough, and otherwise gets the free block of lowest address that is |
| `BlockList.WrappedRequest` | kernel/mm/heap.c:35-60 | the case in which the code falls short: a request above 2^32 - 8 succeeds on any heap with a free block and, where that block is split, yields a block of size 0 |
| `BlockList.CarveKeeps` | kernel/mm/heap.c:43-56 | splitting or taking a free block keeps the list a tiling of the arena with 8-byte sizes and no two free neighbours |
| `BlockList.CarveTotal` | kernel/mm/heap.c:43-56 | what allocation adds to `used_bytes` is the size of the block it returns plus one header |
| `BlockList.ReleaseNoFreeNeighbours` | kernel/mm/heap.c:62-82 | freeing looks at both sides, so no two neighbouring blocks are free afterwards |
| `BlockList.ReleaseKeeps` | kernel/mm/heap.c:62-82 | freeing and coalescing keep the tiling |
| `BlockList.ReleaseLive` | kernel/mm/heap.c:62-82 | freeing block i takes exactly block i out of the live ones |
| `BlockList.ReleaseTotal` | kernel/mm/heap.c:75-82 | what freeing takes off `used_bytes` is the size of the freed block plus one header |
| `BlockList.DeallocateTakes` | kernel/mm/heap.c:92-96 | `kfree` of a live pointer removes exactly its block; of NULL or a freed block it does nothing |
| `BlockList.ReallocateMoves` | kernel/mm/heap.c:105-119 | when `krealloc` moves a block, the list passes through an allocation and a release, and the old block is still live in between |
| `BlockList.LiveApart` | kernel/mm/heap.c:37-60 | two live blocks never overlap, headers included, and lie inside the arena |
| `BlockList.TotalsFillArena` | kernel/mm/heap.c:121-123 | used and free bytes add up to the distance the list spans, for every list of touching blocks |
| `BlockList.AllFreeIsInitial` | kernel/mm/heap.c:26-33 | a well-formed list in which nothing is live is the single block `heap_init` makes |
| `HeapRuns.RunKeeps` | kernel/mm/heap.c:26-119 | every run of kmalloc, kcalloc, krealloc and kfree keeps the block list well formed; kcalloc and krealloc are called with sizes that do not wrap, without which they overrun their block |
| `HeapRuns.RunKeepsOthers` | kernel/mm/heap.c:85-119 | a live block keeps its address and size through every run of such calls that does not name its pointer |
| `HeapRuns.LivePayloadsSafe` | kernel/mm/heap.c:37-119 | in every state a run of such calls can reach, a live payload is 8-aligned, inside the arena, clear of every header and of every other live payload |
| `HeapRuns.Accounting` | kernel/mm/heap.c:121-123 | in every state such a run reaches, `heap_free()` is the sum over the free blocks, `used_bytes` being the sum over the live ones |
| `HeapRuns.FreeingAllRestores` | kernel/mm/heap.c:62-96 | freeing the live pointers, each once and in any order, gives back the state after `heap_init` |
| `HeapRuns.Perform` | kernel/mm/heap.c:85-119 | one call on the byte arena: the heap stays valid and follows the list, and every live block that the call does not name keeps its bytes |
| `HeapRuns.PerformAll` | kernel/mm/heap.c:85-119 | a run of calls on the byte arena: the heap stays valid and follows the list, and every live block that no call names is still live with the same bytes |
| `Heap.Arena.constructor` | kernel/mm/heap.c:26-33 | writes one free header over the whole area, whatever the memory held |
| `Heap.Arena.Search` | kernel/mm/heap.c:41-42 | the walk along the `next` words in memory stops at the block that first-fit search on the list finds |
| `Heap.Arena.Split` | kernel/mm/heap.c:43-53 | the header words of the front, the new back and the block behind it, and that no other byte changes |
| `Heap.Arena.Place` | kernel/mm/heap.c:43-56 | the bytes describe the carved list afterwards, and no live payload byte has changed |
| `Heap.Arena.Take` | kernel/mm/heap.c:43-57 | the same with `used_bytes` brought up to date |
| `Heap.Arena.Kmalloc` | kernel/mm/heap.c:85-90 | on the byte arena, refines Allocate, leaves every live payload alone, and changes no byte when it fails |
| `Heap.Arena.AbsorbNext` | kernel/mm/heap.c:63-67 | swallowing the next block rewrites size, next and the back link behind it, and no live payload |
| `Heap.Arena.MergeForward` | kernel/mm/heap.c:63-67 | coalesces to the right exactly when there is a free block there |
| `Heap.Arena.MergeBackward` | kernel/mm/heap.c:68-72 | coalesces to the left exactly when there is a free block there |
| `Heap.Arena.Coalesce` | kernel/mm/heap.c:62-73 | both merges in the order of the code |
| `Heap.Arena.MarkAndMerge` | kernel/mm/heap.c:75-82 | the freed block is marked and merged, and every other live payload is untouched |
| `Heap.Arena.Kfree` | kernel/mm/heap.c:75-96 | on the byte arena, refines Deallocate; the payloads of the blocks still live are unchanged; NULL and an already free block change no byte |
| `Heap.Arena.Memset` | kernel/lib/string.c:4-8 | the byte loop fills exactly the region |
| `Heap.Arena.Memcpy` | kernel/lib/string.c:10-15 | the byte loop copies exactly the region when source and target do not overlap |
| `Heap.Arena.Kcalloc` | kernel/mm/heap.c:98-103 | refines Allocate on the 32-bit product, the block begins with that many zeros, and all live payloads are unchanged |
| `Heap.Arena.Krealloc` | kernel/mm/heap.c:105-119 | refines Reallocate; the old contents stand at the front of the block returned; on failure no byte has changed; all other live payloads are unchanged |
| `Heap.Arena.Move` | kernel/mm/heap.c:112-118 | the slow path: allocate, copy, free |
| `RoundRobin.StepKeeps` | kernel/process/process.c:69-162 | each of create, tick, yield, sleep and exit keeps: exactly one thread RUNNING and it is `current`, pids distinct, quantum 1 or 2, the boot flow runnable |
| `RoundRobin.RunKeeps` | kernel/process/process.c:69-162 | the same over every run |
| `RoundRobin.ScheduleNearer` | kernel/process/process.c:102-120 | a READY thread that `schedule()` passes over stays READY and its ring distance from `current` strictly shrinks |
| `RoundRobin.StepNearer` | kernel/process/process.c:93-162 | an event brings a waiting thread nearer by one if it calls `schedule()`, and farther by at most one if it creates a task |
| `RoundRobin.WaitingBound` | kernel/process/process.c:93-162 | while a thread waits, calls made plus distance left never exceed the initial distance plus the tasks created |
| `RoundRobin.BoundedWaiting` | kernel/process/process.c:102-120 | a READY thread is dispatched within its ring distance, counted in `schedule()` calls, each task created meanwhile adding at most one |
| `RoundRobin.SleepsUntilWake` | kernel/process/process.c:122-154 | over every run, a sleeping thread stays asleep and does not run while its wake tick lies ahead |
| `RoundRobin.SleepIsLongEnough` | kernel/process/process.c:147-154 | after task_sleep(ms) at tick T the caller does not run before T + ms * freq / 1000, whatever happens |
| `RoundRobin.TickWakes` | kernel/process/process.c:122-138 | after a timer tick no thread whose wake tick has passed is asleep |
| `RoundRobin.DeadForGood` | kernel/process/process.c:102-162 | a thread that has exited stays DEAD through every run |
| `RoundRobin.StepCpu` | kernel/process/process.c:122-126 | every event charges one unit of `cpu_ticks` per tick and none otherwise |
| `RoundRobin.TimeIsCharged` | kernel/drivers/timer.c:12-16 | over every run the sum of `cpu_ticks` grows exactly as `timer_ticks()` does |
| `Scheduler.SpawnRefines` | kernel/process/process.c:69-99 | creating a task in an unused slot inserts it behind `ring_head`: `next` visits every used slot once and returns |
| `Scheduler.FailedSpawnRefines` | kernel/process/process.c:69-99 | a task_create whose stack cannot be allocated leaves ring and run queue alone |
| `Scheduler.StaysInLoop` | kernel/process/process.c:40-47 | after reclaiming the slot of a task still linked, `next` never leads back to `ring_head` |
| `Scheduler.StillReaches` | kernel/process/process.c:40-47 | a reclaim whose stack cannot be allocated leaves the cleared slot linked |
| `Scheduler.ReclaimBreaksRing` | kernel/process/process.c:40-47 | the case in which the code falls short: reclaiming a slot leaves no order of the used slots that `next` visits and returns from |
| `Scheduler.HeadReclaimBreaksRing` | kernel/process/process.c:40-47 | so it does for slot 0 |
| `Scheduler.SpawnKeepsRingIff` | kernel/process/process.c:36-99 | task_create keeps a ring if and only if some slot is unused or no task in a used slot is dead |
| `Scheduler.Kernel.constructor` | kernel/process/process.c:51-67 | the boot flow becomes task 0, RUNNING, alone in the ring |
| `Scheduler.Kernel.Pick` | kernel/process/process.c:102-114 | the pointer walk along `next` finds the thread whose turn it is, and gives up only when nobody is READY |
| `Scheduler.Kernel.HandOver` | kernel/process/process.c:115-119 | the caller goes from RUNNING to READY and the chosen task becomes `current` |
| `Scheduler.Kernel.Schedule` | kernel/process/process.c:102-120 | on the task table, refines the round-robin policy |
| `Scheduler.Kernel.WakeSleepers` | kernel/process/process.c:127-133 | the pass over the ring wakes exactly the sleepers whose time has come, each once |
| `Scheduler.Kernel.Tick` | kernel/process/process.c:122-138 | the timer interrupt refines the policy: charge, wake, and yield when the quantum is used up |
| `Scheduler.Kernel.TaskYield` | kernel/process/process.c:140-145 | refines the policy |
| `Scheduler.Kernel.TaskSleep` | kernel/process/process.c:147-154 | refines the policy |
| `Scheduler.Kernel.TaskExit` | kernel/process/process.c:156-162 | refines the policy |
| `Scheduler.Kernel.AllocPcb` | kernel/process/process.c:36-49 | hands out the first unused slot, cleared; failing that, that of the first dead task, whose stack it frees; else nothing |
| `Scheduler.Kernel.TaskCreate` | kernel/process/process.c:69-99 | the table and the new stack afterwards in every case, failures included: name cut to 31 characters, frame prepared, `esp` at it; unless a slot is reclaimed it refines the policy |
| `SchedulerRuns.EventsEnabled` | kernel/process/process.c:69-162 | a run of calls that reclaims no slot and in which the boot flow neither sleeps nor exits is an enabled run of the policy |
| `SchedulerRuns.Perform` | kernel/process/process.c:69-162 | one call on the task table is one event of the policy |
| `SchedulerRuns.PerformAll` | kernel/process/process.c:69-162 | a run of such calls on the task table keeps the ring and the invariant, and follows the policy |
| `Context.Cpu.SaveFrame` | kernel/arch/lowlevel.asm:36-40 | the five pushes leave a frame of the caller's registers under its return address |
| `Context.Cpu.LoadFrame` | kernel/arch/lowlevel.asm:43-48 | the five pops and the return load every register from the frame |
| `Context.Cpu.SwitchContext` | kernel/arch/lowlevel.asm:32-48 | the whole routine: frame saved, its address stored at `save_to`, everything reloaded from `load_val`, no other word changed |
| `Context.SwitchRoundTrip` | kernel/arch/lowlevel.asm:32-48 | after switching away and, after any run that leaves the saved words alone, back, registers, flags, stack pointer and return address are restored |
| `Context.PrepareStack` | kernel/process/process.c:81-91 | the seven stores of task_create build a frame of the layout that `switch_context` pops |
| `Context.FirstSwitch` | kernel/process/process.c:81-91 | the first switch to a new task starts `entry` with interrupts enabled, zeroed registers and `task_exit` as the return address |
| `FsTree.PositionsDiffer` | kernel/fs/ramfs.c:22-62 | a node sits at one place in the tree only |
| `FsTree.UnlinkedForest` | kernel/fs/ramfs.c:90-98 | taking child i out of a sibling list leaves the list of the others, in order |
| `FsTree.PutLinked` | kernel/fs/ramfs.c:90-114 | changing the links below one node changes the tree there and nowhere else |
| `FsRemoval.KidsRemovedStep` | kernel/fs/ramfs.c:103-109 | one round of the loop over the children removes exactly the first one left, although the recursive call edits the list being walked |
| `FsRemoval.NodeFreed` | kernel/fs/ramfs.c:110-114 | the node and its non-null buffer are live blocks until they are freed, so nothing is freed twice |
| `FsRemoval.RemovalPrunes` | kernel/fs/ramfs.c:100-114 | the tree afterwards is the old one without the subtree; every other node keeps its parent and its place among its siblings |
| `FsRemoval.RemovalDone` | kernel/fs/ramfs.c:100-114 | together with the blocks: the subtree's nodes and buffers are gone, and every other file reads as before |
| `Ramfs.Fs.constructor` | kernel/fs/ramfs.c:16-18 | an empty root directory, or none if and only if the heap has no room for a node |
| `Ramfs.Fs.NewNode` | kernel/fs/ramfs.c:8-14 | a zeroed node with the name cut to 63 characters, or NULL with nothing changed if and only if the heap has no room |
| `Ramfs.Fs.UnlinkFromParent` | kernel/fs/ramfs.c:90-98 | the walk along the siblings removes exactly this node from its parent's list |
| `Ramfs.Fs.FsRemove` | kernel/fs/ramfs.c:100-114 | terminates; false exactly for NULL and the root; else the subtree is unlinked and exactly its nodes and non-null buffers are freed, each once |
| `Ramfs.Fs.RemoveKids` | kernel/fs/ramfs.c:103-109 | the loop frees every subtree below the node and nothing else |
| `Ramfs.Fs.Remove` | kernel/fs/ramfs.c:100-114 | the same on the whole filesystem: it stays well formed, every remaining node keeps parent, place and contents, and sibling names stay different |
| `FsPaths.CompsJoin` | kernel/fs/ramfs.c:42-62 | splitting a printed path at its slashes gives the names back |
| `FsPaths.CompsCut` | kernel/fs/ramfs.c:162-177 | a printed path cut short loses components from the end and may shorten the last one left |
| `FsPaths.WalkFinds` | kernel/fs/ramfs.c:42-62 | no path leads from the root to a node with a name on the way that is empty, ".", ".." or has a slash, or with a node on the way that has an older sibling of its name in front of it |
| `FsPaths.WalkDown` | kernel/fs/ramfs.c:42-62 | following the names of any other node from the root leads to it |
| `FsPaths.ApartFirst` | kernel/fs/ramfs.c:22-40 | where siblings have different names, every node on the way to any node is the first of its siblings with its name |
| `FsPaths.PathRoundTrip` | kernel/fs/ramfs.c:162-177 | for every node of every tree: its printed path resolves to it if and only if it is at most 32 levels deep, the path fits the buffer, all names on the way can be spelled, and every node on the way is the first of its siblings with its name |
| `FsPaths.NewChildNames` | kernel/fs/ramfs.c:30-40 | a new first child keeps sibling names different if and only if no sibling has its name |
| `Ramfs.Fs.FindChild` | kernel/fs/ramfs.c:22-28 | the first child of this name, or NULL if and only if there is none |
| `Ramfs.Fs.Enter` | kernel/fs/ramfs.c:49-59 | one component: stay, go up but not above the root, or go down |
| `Ramfs.Fs.FsResolve` | kernel/fs/ramfs.c:42-64 | the node reached by walking the components from the root or the current directory, or NULL if and only if the walk fails |
| `Ramfs.Fs.Climb` | kernel/fs/ramfs.c:162-168 | the last 32 names on the way to the root |
| `Ramfs.Fs.FsAbspath` | kernel/fs/ramfs.c:162-177 | the buffer holds "/" for the root, otherwise the last 32 names, each behind a slash, cut to the buffer; it is terminated unless it is one byte long and the node is the root |
| `Ramfs.Fs.AbspathResolves` | kernel/fs/ramfs.c:162-177 | on the filesystem: fs_resolve of fs_abspath of a node, from any directory, is that node if and only if these four conditions hold |
| `FsGrowth.CreateKeepsNamesIff` | kernel/fs/ramfs.c:30-40 | fs_create keeps sibling names different if and only if the name is shorter than 64 characters or its cut form is not taken |
| `FsGrowth.LongNameTwice` | kernel/fs/ramfs.c:30-40 | the case in which the code falls short: creating a 64-character name twice makes two entries of one name |
| `FsGrowth.SlashNameLost` | kernel/fs/ramfs.c:42-62 | a case in which the code falls short: the directory that `mkdir a/b` makes in an empty root is one level deep, its path is "/a/b", and that leads nowhere |
| `FsGrowth.LedSpellable` | kernel/fs/ramfs.c:42-62 | a path leads to an entry fs_create made only if its name can be spelled |
| `FsGrowth.DescendCreated` | kernel/fs/ramfs.c:30-40 | a new entry is what the longer path, its last name cut to 63 characters, leads to |
| `FsGrowth.DescendIsWalk` | kernel/fs/ramfs.c:67-88 | on components other than "." and "..", going down by names is what fs_resolve does |
| `Ramfs.Fs.FsCreate` | kernel/fs/ramfs.c:30-40 | returns the entry of this name or a new first child, keeping every other node and its contents; NULL, with nothing changed, exactly when dir is no directory or a node is needed and the heap has no room |
| `FsGrowth.WayStays` | kernel/fs/ramfs.c:67-88 | making an entry at the end of a path leaves the way there as it was |
| `Ramfs.Fs.FsMkdirP` | kernel/fs/ramfs.c:67-88 | the components, each cut to 63 characters, lead to the node returned; sibling names stay different; NULL only where a file is in the way or the heap has no room; every node made, even then, lies on the way |
| `FsGrowth.DotDotIsUp` | kernel/fs/ramfs.c:67-88 | a case in which the code falls short: fs_mkdir_p("..") makes a directory of that name, and fs_resolve goes up instead |
| `Ramfs.Fs.MkdirResolvesIff` | kernel/fs/ramfs.c:67-88 | what fs_mkdir_p returned, fs_resolve finds under the same path if and only if all components can be spelled and are shorter than 64 characters |
| `FsGrowth.StoredText` | kernel/fs/ramfs.c:116-143 | bytes stored at an offset of a buffer replace the file's text from there on, and no other file's |
| `Ramfs.Fs.EnsureCap` | kernel/fs/ramfs.c:118-123 | the buffer is grown only when too small; the text survives, wherever krealloc puts it; fails exactly when krealloc does |
| `Ramfs.Fs.FsWrite` | kernel/fs/ramfs.c:116-128 | the file reads exactly the bytes written, NUL-terminated, and every other node is unchanged; -1, with nothing changed, exactly for a directory, NULL or a failed krealloc |
| `Ramfs.Fs.FsAppend` | kernel/fs/ramfs.c:130-143 | the file reads its old contents followed by the bytes; same failures |
| `Ramfs.Fs.FsPut` | kernel/fs/ramfs.c:145-160 | the part before the last slash leads to the directory in which the rest, whole or cut to 63 characters, names the file, which reads the text; every way to NULL, and to a file left unwritten, is named |
| `Ramfs.Fs.PutResolvesIff` | kernel/fs/ramfs.c:145-160 | what fs_put filed, fs_resolve finds under the same path if and only if the components of the directory and the name can be spelled and are shorter than 64 characters |
| `FileText.TextOfBytes` | kernel/fs/ramfs.c:116-128 | the C string behind a file's data pointer is the text written, terminator and all |
| `FileText.SaveText` | kernel/core/config.c:97-98 | fs_mkdir_p and fs_put of a text: a reader of that path finds the text, or one of the reasons it cannot be there holds |
| `FileText.LoadText` | kernel/core/config.c:123-125 | the text behind the path, or none if it leads to no file with contents |
| `Strings.Utoa` | kernel/lib/string.c:108-118 | the digits of the number in any base from 2 to 16, produced backwards and copied in reverse |
| `Strings.Itoa` | kernel/lib/string.c:120-127 | the signed decimal form; in other bases the two's complement word |
| `Strings.Atoi` | kernel/lib/string.c:97-104 | blanks, one sign, then digits accumulated in wrapping 32-bit arithmetic |
| `Strings.DigitsOfNumeral` | kernel/lib/string.c:97-118 | reading the digits of a number leaves the number in the accumulator |
| `Strings.AtoiOfItoa` | kernel/lib/string.c:97-127 | atoi reads back what itoa wrote, for every int but the smallest, whatever non-digit follows |
| `Printf.Sink.Emit` | kernel/lib/printf.c:13-20 | the length counts every character; the buffer holds the text as far as it fits and nothing outside it changes |
| `Printf.Sink.EmitPad` | kernel/lib/printf.c:26-42 | padding left or right to the width, zeros behind a minus sign |
| `Printf.Sink.Directive` | kernel/lib/printf.c:49-92 | one directive with its flags and width consumes its argument and prints it |
| `Printf.Sink.Format` | kernel/lib/printf.c:44-93 | prints the expansion of the format |
| `Printf.Kvsnprintf` | kernel/lib/printf.c:107-112 | the buffer reads the expansion cut to size - 1 and terminated, nothing outside it changes, and the result counts what did not fit |
| `Printf.ExpandPlain` | kernel/lib/printf.c:44-93 | text without directives prints as it stands |
| `Printf.HexPrinted` | kernel/lib/printf.c:44-93 | "%06x" prints every 24-bit number as exactly six digits, the high ones zeros |
| `ConfigTable.SetKeeps` | kernel/core/config.c:31-43 | strings stay within their fields and used slots stay in front |
| `ConfigTable.GetAfterSetIff` | kernel/core/config.c:15-43 | a value set is got back if and only if the key is shorter than 48 characters and the value shorter than 80; a longer value comes back cut, a longer key is never found |
| `ConfigTable.SetKeepsDistinctIff` | kernel/core/config.c:31-43 | keys stay distinct if and only if the key fits its field or its cut form is not taken |
| `ConfigTable.SetKeepsOthers` | kernel/core/config.c:21-43 | setting one key does not change what a key gets that differs from it and from its cut form |
| `ConfigTable.LineSets` | kernel/core/config.c:62-88 | a saved line, parsed, sets exactly its key to exactly its value |
| `ConfigTable.SavedParsed` | kernel/core/config.c:62-99 | parsing a saved text into any table sets its entries in turn |
| `ConfigRestart.ReloadIsIdleIff` | kernel/core/config.c:62-99 | with clean keys and no newlines: parsed into the table it was saved from, the text changes nothing if and only if the last value under each key is read back as the first |
| `ConfigExact.ParsedIsOneLine` | kernel/core/config.c:62-88 | no text makes the parser store a newline |
| `ConfigExact.SlotsFilled` | kernel/core/config.c:62-99 | if parsing a table's lines gives the table back, each line filled the slot it came from |
| `ConfigExact.ReloadRebuildsIff` | kernel/core/config.c:62-99 | saved and parsed into an empty table, any table config_set can make comes back slot for slot if and only if its entries are clean and no key occurs twice |
| `ConfigExact.EqualsSignMoves` | kernel/core/config.c:31-88 | the case in which the code falls short: config_set accepts the key "a=b" with the value "c", and its saved line sets "a" to "b = c" |
| `ConfigExact.OddKeyLost` | kernel/core/config.c:62-99 | so a table holding only that entry comes back as another |
| `ConfigTable.SavedFits` | kernel/core/config.c:90-99 | the text of any table, terminator included, fits the 96 * 132 bytes of config_save |
| `Config.Config.FindEntry` | kernel/core/config.c:15-19 | the first used slot with this key |
| `Config.Config.ConfigGet` | kernel/core/config.c:21-24 | the value under the key, or the default |
| `Config.Config.ConfigSet` | kernel/core/config.c:31-43 | the whole table afterwards, and false exactly when it is full |
| `Config.Config.ParseText` | kernel/core/config.c:62-88 | the character loop with its 132-byte line buffer refines line-by-line parsing |
| `Config.EntryPrinted` | kernel/core/config.c:96 | the format "%s = %s\n" prints key, " = ", value and a newline |
| `Config.Config.PrintConfig` | kernel/core/config.c:90-96 | the buffer reads the header and one line per used slot, none of it cut, and the count is its length |
| `ConfigRestart.SetWithin` | kernel/core/config.c:31-43 | setting a key in a table that holds only keys of one of its size, and lacks some, never runs out of slots, and changes what a get of that key answers and no other |
| `ConfigRestart.DoneGets` | kernel/core/config.c:62-88 | after the lines of a table are parsed into such a table, a get of a key answers the value of the last line with it, or what it answered before |
| `ConfigRestart.SurvivesIff` | kernel/core/config.c:62-99 | a table survives, where no key occurs twice, if and only if all its entries are clean; where all are clean, if and only if the last value under each key is that of the first |
| `ConfigRestart.RestartKeepsIff` | kernel/core/config.c:62-131 | loading a saved text over a clean table without foreign keys makes every get answer as at the time of saving if and only if the saved table survives: its keys are clean, so are the values a get finds, and the last value under each key is read back as that one |
| `ConfigBoot.LongKeySetTwice` | kernel/core/config.c:31-43 | the case in which the code falls short: a key of 48 characters set to "1" and then to "2" takes two slots, and a get of the key as it was cut finds "1" |
| `ConfigBoot.LongKeyChanges` | kernel/core/config.c:62-131 | after the next start it finds "2", although all entries are clean |
| `ConfigBoot.LongKeyOnFreshMachine` | kernel/core/config.c:31-131 | so it does on a machine that has just been started for the first time |
| `ConfigBoot.DefaultsKeep` | kernel/core/config.c:109-131 | the defaults keep the table well formed, with no keys but theirs added |
| `ConfigBoot.BootRestoresIff` | kernel/core/config.c:109-131 | a start from an empty table, defaults and all, followed by the saved text answers every get as the machine that saved it if and only if the table saved survives; a value hidden behind another under its key has no newline |
| `ConfigBoot.RunRestoresIff` | kernel/core/config.c:31-131 | so it is for every table a machine can have: started with any file, and config_set called any number of times with strings without a newline |
| `ConfigStore.ConfigSave` | kernel/core/config.c:90-99 | the file /etc/m1ke/system.conf reads the saved text, or the reason why not |
| `ConfigStore.ConfigInit` | kernel/core/config.c:109-131 | defaults first, then the file if there is one with contents; otherwise the file is made |
| `ConfigStore.SaveAndRestart` | kernel/core/config.c:90-131 | config_save and, on an empty table, config_init over the same filesystem: for a table that holds the defaults, and hides no newline, every get answers as before if and only if it survives |
| `M1ss.ColourRoundTrip` | kernel/gui/m1ss.c:27-39 | m1ss_parse_color undoes "#%06x" on every 24-bit colour |
| `M1ss.ParseColour` | kernel/gui/m1ss.c:27-39 | at most six hex digits behind '#', all of them needed, or a colour name |
| `M1ss.SkipWs` | kernel/gui/m1ss.c:97-105 | skips blanks, block comments, line comments and lines that begin with '#', never past the terminator |
| `M1ss.ReadToken` | kernel/gui/m1ss.c:106-114 | the token up to a stop character, stored as far as the buffer holds it, never overfilled |
| `M1ss.ReadValue` | kernel/gui/m1ss.c:134-139 | the value up to ';' or '}', cut to 47 characters and trimmed |
| `M1ss.Declaration` | kernel/gui/m1ss.c:129-141 | one declaration, with both recovery branches, gets past at least one character |
| `M1ss.Block` | kernel/gui/m1ss.c:126-142 | all declarations of a selector up to its '}' or the end of the text |
| `M1ss.Styles.constructor` | kernel/gui/m1ss.c:46-63 | the default theme |
| `M1ss.Styles.M1ssParse` | kernel/gui/m1ss.c:116-144 | terminates on every text and leaves the theme that the grammar gives |
| `Sheet.ApplyInRange` | kernel/gui/m1ss.c:73-94 | no assignment, whatever its text, takes a field out of its range |
| `Sheet.ParseInRange` | kernel/gui/m1ss.c:116-144 | no stylesheet, whatever its text, does |
| `SheetSave.DesktopRead` | kernel/gui/m1ss.c:116-192 | the desktop block as saved gives back nothing: each '#' colour is skipped as a comment and swallows the declaration behind it |
| `SheetSave.WindowRead` | kernel/gui/m1ss.c:116-192 | the window block as saved gives back radius, blur, opacity, shadow and border exactly, and no tint |
| `SheetSave.TaskbarRead` | kernel/gui/m1ss.c:116-192 | the taskbar block as saved gives back its four settings exactly |
| `SheetSave.TerminalRead` | kernel/gui/m1ss.c:116-192 | the terminal block as saved gives back nothing |
| `SheetSave.SavedRead` | kernel/gui/m1ss.c:116-192 | reading a saved theme over any theme recovers those nine settings and leaves the other seven alone |
| `SheetSave.SaveReloadIff` | kernel/gui/m1ss.c:151-207 | theme_save then theme_reload gives the theme back if and only if the seven settings that are not recovered have their defaults |
| `SheetSave.RoseLost` | kernel/gui/m1ss.c:151-235 | the case in which the code falls short: `theme set accent rose` on the default theme is undone by the next reload |
| `SheetFormat.FormatPrints` | kernel/gui/m1ss.c:151-192 | the format string with the theme's sixteen arguments prints the saved sheet |
| `SheetFormat.SavedFits` | kernel/gui/m1ss.c:151-192 | the sheet of any theme in range fits the 1400 bytes of theme_save |
| `Theme.PrintSheet` | kernel/gui/m1ss.c:151-189 | the string stored is the saved sheet, uncut |
| `ThemeStore.ThemeSave` | kernel/gui/m1ss.c:151-192 | the file /etc/m1ke/theme.m1ss reads a sheet that gives back the nine settings over any theme, or the reason why not |
| `ThemeStore.ThemeReload` | kernel/gui/m1ss.c:202-207 | defaults, then the file if there is one with contents; the console gets the accent |
| `ThemeStore.SaveAndReload` | kernel/gui/m1ss.c:151-207 | theme_save and then theme_reload through the file: the nine settings come back, the other seven are the defaults |
| `Theme.Assign` | kernel/gui/m1ss.c:214-232 | the assignment made, and false exactly for an unknown name without a dot |
| `ThemeStore.ThemeSet` | kernel/gui/m1ss.c:214-235 | that, and after an assignment the theme is saved and the console gets the accent |
| `Theme.ShorthandIs` | kernel/gui/m1ss.c:214-235 | a shorthand sets what its long form with the selector sets |
| `Theme.SetInRange` | kernel/gui/m1ss.c:214-235 | no setting takes the theme out of range |
| `Blur.WindowAdvances` | kernel/drivers/console.c:362-364 | subtracting the pixel that leaves and adding the one that enters gives the sum of the next window, at the ends of the line too |
| `Blur.Advance` | kernel/drivers/console.c:362-364 | running sums and count stay those of the clamped window |
| `Blur.Slide` | kernel/drivers/console.c:359-365 | one pass over a line writes the average of every pixel's window; the divisor is never 0 |
| `Blur.ColOfBlurred` | kernel/drivers/console.c:367-378 | a column of the column-wise blur is the average of that column |
| `Blur.BlurBuffer` | kernel/drivers/console.c:352-379 | the sliding-window blur equals the naive one pixel for pixel, for every image and every radius for which the indices do not overflow |
| `Blur.WindowMean` | kernel/drivers/console.c:304-311 | adding up a window afresh gives the same average |
| `Blur.BlurRegion` | kernel/drivers/console.c:291-325 | the clipped rectangle is blurred as an image of its own, every pixel outside it is unchanged |
| `Rounded.NewtonStaysAbove` | kernel/drivers/console.c:212-217 | an iteration step never falls below the root |
| `Rounded.NewtonEnds` | kernel/drivers/console.c:212-217 | a step that does not go down started at or below the root |
| `Rounded.Isqrt` | kernel/drivers/console.c:212-217 | terminates with the exact floor of the square root for every int below 2^31 - 1, 0 for negative ones |
| `Rounded.InsetSymmetric` | kernel/drivers/console.c:244-250 | the inset is symmetric top to bottom |
| `Rounded.InsetShrinks` | kernel/drivers/console.c:244-250 | the inset never grows towards the middle and is 0 from the corner radius on |
| `Rounded.InsetIsCircle` | kernel/drivers/console.c:244-250 | a corner row keeps exactly the columns within distance r of the centre of the corner |
| `Rounded.ComputeInset` | kernel/drivers/console.c:244-250 | round_inset computes it for every row of a shape, in 0..r |
| `Rounded.Mix` | kernel/drivers/console.c:235-242 | each blended channel lies between background and foreground |
| `Rounded.BlendEnds` | kernel/drivers/console.c:235-242 | alpha 0 keeps the background and alpha 255 gives the foreground |
| `Rounded.BlendLine` | kernel/drivers/console.c:258-265 | one scan line of the shape, clipped at both sides |
| `Rounded.BlendRound` | kernel/drivers/console.c:252-267 | every on-screen pixel of the rounded shape is blended exactly once and no other pixel changes |
| `Clipping.ClipInside` | kernel/drivers/console.c:337-341 | what clipping leaves lies on the screen, whatever the rectangle |
| `Clipping.ClipExactIff` | kernel/drivers/console.c:337-341 | what clipping leaves is the visible part if and only if the rectangle does not end before the origin |
| `Repaint.Screen.HwPutPixel` | kernel/drivers/console.c:346-349 | sets one on-screen pixel and ignores all others |
| `Repaint.Screen.DrawCursor` | kernel/gui/desktop.c:66-73 | overlays the sprite, clipped at every screen edge |
| `Repaint.Screen.Present` | kernel/drivers/console.c:185-189 | the screen shows the back buffer |
| `Repaint.Screen.PresentRect` | kernel/drivers/console.c:335-344 | the clipped rectangle shows the back buffer, all else is unchanged |
| `Repaint.Screen.Erase` | kernel/gui/desktop.c:452-454 | presenting 12 x 19 pixels removes the old cursor however it was clipped |
| `Repaint.Screen.Iterate` | kernel/gui/desktop.c:434-462 | whichever branch runs, the screen ends up showing the back buffer with the cursor at the mouse |
| `Repaint.Screen.DesktopRun` | kernel/gui/desktop.c:434-462 | so it does at the end of every run of the event loop |
| `Pmm.AlignedCoversInside` | kernel/mm/pmm.c:60-65 | from a page-aligned region exactly the frames wholly inside it are freed |
| `Pmm.AvailableIsBacked` | kernel/mm/pmm.c:52-68 | with a page-aligned memory map, the frames freed are those wholly inside an available region |
| `Pmm.CoversInsideIff` | kernel/mm/pmm.c:60-65 | only frames inside a region are freed if and only if it starts on a page boundary or is shorter than a page |
| `Pmm.FramesNotTruncated` | kernel/mm/pmm.c:34-50 | below 2^44 the cast of the frame count loses nothing |
| `Pmm.CountFrames` | kernel/mm/pmm.c:34-50 | the number of frames from the memory map, from `mem_upper` or by default, capped |
| `Pmm.FrameMap.BmSet` | kernel/mm/pmm.c:19 | sets the flag of one frame and of no other |
| `Pmm.FrameMap.BmClear` | kernel/mm/pmm.c:20 | clears the flag of one frame and of no other |
| `Pmm.FrameMap.BmTest` | kernel/mm/pmm.c:21 | reads the flag of a frame |
| `Pmm.FrameMap.MarkUsed` | kernel/mm/pmm.c:23-26 | the flag and the cached counter stay in step |
| `Pmm.FrameMap.MarkFree` | kernel/mm/pmm.c:27-30 | the flag and the cached counter stay in step |
| `Pmm.FrameMap.FreeEntry` | kernel/mm/pmm.c:60-65 | one region of the map frees exactly the frames its loop covers |
| `Pmm.FrameMap.constructor` | kernel/mm/pmm.c:32-76 | after pmm_init a frame is free exactly when some available region covers it and it lies above the reserved prefix |
| `Pmm.FrameMap.AllocFrame` | kernel/mm/pmm.c:78-85 | the lowest free frame becomes used; 0 exactly when there is none |
| `Pmm.FrameMap.FreeFrame` | kernel/mm/pmm.c:87-91 | the frame of this address becomes free, an address outside the map is ignored |
| `Pmm.RunsAccounted` | kernel/mm/pmm.c:78-91 | over every run that frees only what was handed out, used frames are the reserved ones and those handed out |
| `Pmm.AllocSafe` | kernel/mm/pmm.c:78-91 | in every reachable state the next allocation is neither reserved nor handed out already, nonzero and below 2^32, and fails only when nothing is free |
| `Pmm.AllocBacked` | kernel/mm/pmm.c:52-91 | with a page-aligned map, what pmm_init and any run of requests hand out next lies wholly inside an available region and above the kernel, and nothing is handed out only when all such frames are |
| `Pmm.ServeOne` | kernel/mm/pmm.c:78-91 | AllocFrame and FreeFrame on the bitmap refine a request |
| `Pmm.ServeRun` | kernel/mm/pmm.c:78-91 | a run of requests on the bitmap follows the pool, and used frames stay accounted for |
| `Keyboard.StepKeeps` | kernel/drivers/keyboard.c:80-157 | every access of either side, at any point of the other, keeps: codes accepted are codes read followed by codes held |
| `Keyboard.RunKeeps` | kernel/drivers/keyboard.c:80-157 | so does every interleaving |
| `Keyboard.ReadsArePrefix` | kernel/drivers/keyboard.c:152-157 | the codes read are a prefix of the codes accepted; the rest, at most 255, is in the buffer |
| `Keyboard.DropsOnlyWhenFull` | kernel/drivers/keyboard.c:80-83 | a push is dropped exactly when 255 codes are held; the queue looks empty exactly when everything has been read |
| `Keyboard.Queue.Push` | kernel/drivers/keyboard.c:80-83 | the handler on the ring refines its step |
| `Keyboard.Queue.Check` | kernel/drivers/keyboard.c:150-153 | the comparison of head and tail is true exactly when nothing is waiting |
| `Keyboard.Queue.Load` | kernel/drivers/keyboard.c:154 | the load sees a code that a push cannot overwrite before it is taken |
| `Keyboard.Queue.Finish` | kernel/drivers/keyboard.c:155-157 | the code loaded is taken, whatever was pushed in between |

## Left out

Statements that are weaker than the code's full range of inputs:

- Heap.Arena.Kcalloc: requires a product for which `align_up` does not wrap; beyond it `memset` would run past the arena, as ZeroingFitsIff says.
- Heap.Arena.Krealloc: requires a size for which `align_up` does not wrap, for beyond it `memcpy` may run past the block, as CopyFitsIff says, and a pointer that is NULL or live; Heap.Arena.Move likewise.
- HeapRuns.RunKeeps: the calls of a run keep within the same bounds, and so do those of PerformAll.
- Heap.Arena.Kfree: takes NULL or a pointer at which a block stands; a stale pointer into the middle of a block is a caller's error.
- Heap.Arena.Memcpy: requires regions that do not overlap, as its callers here guarantee.
- ConfigBoot.BootRestoresIff: a value that no get finds, because it stands behind another under the same cut key, has no newline in it; RestartKeepsIff and SaveAndRestart likewise. No caller of `config_set` passes a newline. The tables hold the defaults, as every table does after `config_init`.
- RoundRobin.RunKeeps: for runs that never reclaim a slot and in which task 0 neither sleeps nor exits; the shell sleeps by `timer_sleep_ms`. Pids and ticks do not wrap. The runs of SchedulerRuns.PerformAll are the same.
- Scheduler.Kernel.TaskCreate: what `kmalloc` returns for the stack is a parameter, and the reclaimed stack that goes to `kfree` a result; words of the stack are in the memory of the Context module, not in the heap's bytes.
- Context.SwitchRoundTrip: the words that make up a saved frame are not written by the tasks that run in between, and the tasks have stacks and control blocks of their own; registers the calling convention gives up (eax, ecx, edx) are not tracked.
- Ramfs.Fs.FsWrite: the bytes written do not come out of the file's own buffer, and their number with the terminator is one for which `align_up` does not wrap; the same goes for FsAppend and FsPut.
- Ramfs.Fs.FsAbspath: a buffer of at least one byte; the code writes a terminator even into a buffer of none.
- Strings.Itoa: the smallest int is left out, because negating it is undefined in C; atoi on digits that overflow is modelled as wrapping.
- Printf.Sink.Format: arguments are a list of strings and numbers instead of a C argument list; a directive without an argument prints nothing.
- M1ss.Styles.M1ssParse: the helpers get the theme as a value and return it; the object is updated once per selector.
- ConfigStore.ConfigSave: for tables of C strings, whose characters are bytes other than NUL; the same for what FileText.SaveText stores.
- ThemeStore.ThemeSave: says what the stored sheet reads back as; that its text is the saved sheet is stated by Theme.PrintSheet. `theme_init` is `theme_reload` with a save if the file is missing.
- ThemeStore.ThemeSet: a save that fails is not reported, as in the code; ThemeSave says why it can.
- Blur.BlurRegion: screens of at most 1280 by 1024 pixels, the size of its row and column buffers; `fb_w` and `fb_h` are parameters.
- Blur.BlurBuffer: sums of an index and the radius are taken without overflow; radii within an image's width of 2^31, for which `i + r + 1` is undefined in C, are not told apart.
- Rounded.BlendRound: corner radii whose square is an int; beyond, the product in Rounded.ComputeInset is undefined in C.
- Repaint.Screen.Iterate: with a back buffer, as the desktop has; what a recomposition draws is a parameter, and so is the reason for it.
- Pmm.FrameMap.constructor: the map is a list of entries below 2^44, where page numbers fit 32 bits.

Parts of the kernel that are not modelled:

- The fields of a filesystem node live in a map keyed by the node's address, not in the heap's bytes; that each node is a live block of its own, and that a freed one is not touched, is proved. File contents are bytes of the heap.
- Strings are the characters before the terminator; `strlen`, `strcmp`, `strncmp` and `strncpy` are not modelled as loops of their own.
- Shifts and masks of colours are written as division and remainder.
- The listing of tasks and their states.
- `fb_fill_round`, `fb_round_outline` and the other fills, `fb_blit`, text drawing, wallpaper: the same loops over other colours.
- Printing to the console and the other users of `format`.
- `config_dump`, the event log, `theme_show`: output only.
- Keyboard layouts, dead keys and modifiers: tables.
- Interrupt entry, the interrupt controller, the timer chip, serial port, paging, segments: hardware effects. Code under `irq_save` is one atomic step.
- The shell, the window manager, the package tool, the registry and the web page: user interface and dispatch.
