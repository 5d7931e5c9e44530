# Choco OS: a verified model

This project models the parts of the Choco OS kernel that hold unbounded invariants and proves what they
promise. `dafny verify dfyconfig.toml` checks everything.

| part | files |
|---|---|
| preemptive scheduler, interrupt frames, context switches | `Scheduling.dfy`, `SchedulingRuns.dfy`, `SchedulingSteps.dfy`, `SchedulingReaping.dfy`, `SchedulingWaiting.dfy`, `Machine.dfy`, `MachineRuns.dfy`, `Kernel.dfy` |
| threads and heap together | `StacksOnHeap.dfy` |
| first-fit coalescing heap | `HeapLayout.dfy`, `Heap.dfy` |
| page allocator and four-level page tables | `Bits.dfy`, `PageAllocator.dfy`, `PageTables.dfy` |
| vocabulary, encoders, sampler, KV cache, int8 arithmetic | `Vocabulary.dfy`, `Scratch.dfy`, `Bpe.dfy`, `SentencePiece.dfy`, `Decoding.dfy`, `Sampler.dfy`, `KvCache.dfy`, `Quantization.dfy` |
| checkpoint and vocabulary files, writer and reader | `ByteFormat.dfy`, `Checkpoint.dfy`, `TokenizerFile.dfy`, `WeightsOnDisk.dfy`, `VocabularyOnDisk.dfy` |
| RAM filesystem | `VfsPaths.dfy`, `Vfs.dfy`, `VfsFiles.dfy` |
| network receive ring, Internet checksum | `NicRing.dfy`, `Checksum.dfy` |
| shared types | `Basics.dfy` |

Each part has the same shape. A specification is written as functions on values; properties over whole runs
and all inputs are lemmas about it; and classes and methods in the source's own imperative form (linked
nodes, header words, arrays, loops) are proved to compute it. What a function of the specification means is
stated again without it, by places, bits, bytes or sums.

Conventions. Pointers into memory are addresses or offsets; linked structures of the scheduler and the
filesystem are objects with links. `sti; int $0x30` is one atomic step, since the state changes with
interrupts off, and there is one core. The FPU image is an opaque value that `fxsave` and `fxrstor` move.
Whether an allocation succeeds, what the boot loader reports, and random coins are parameters. Sampling and
quantization use exact reals for floats; the arithmetic of a transformer layer is a set of opaque functions.
Strings stand for the characters before the terminating NUL. The 64-bit wake tick, the 32-bit checksum
accumulator, the 32-bit matmul accumulators and malloc's rounding are modelled at their width.

Where the code does not do quite what is promised of it, the model follows the code, and the exact condition
is proved together with an input that shows the difference:

- the thread at `ring`, the first one created, is never reaped after it exits
  (`SchedulingReaping.HeadNeverReaped`, `SchedulingReaping.FirstNeverReaped`); every other zombie is reaped by the
  next sched_preempt (`SchedulingReaping.OnlyHeadSurvives`).
- a sleep that wraps the 64-bit tick counter returns at once (`SchedulingWaiting.WrappedSleepReturns`,
  `SchedulingWaiting.LongestSleepReturns`).
- the top-p cut can leave no candidate when topp < 1/n (`Sampler.AlwaysKeeps`, `Sampler.CutCanKeepNothing`);
  the code then reads in front of its array.
- vmm_map_page reports nothing when it runs out of pages, and flags with address bits spoil the address
  (`PageTables.MapPage`, `PageTables.NoPageLeft`, `PageTables.MappedPhys`, `PageTables.FlagsSpoilAddress`).
- a path deeper than 32 or longer than the buffer does not lead back to its node (`VfsPaths.PrintResolve`,
  `VfsPaths.DeepPathMisses`, `VfsPaths.LongPathMisses`).
- from a file as starting node, "./." succeeds in vfs_mkdirs but does not resolve (`VfsPaths.DotFromFile`).
- the scratch buffer of the encoder of qwen.c is too small for a long tag in the text if no entry of the
  vocabulary has 31 bytes (`Bpe.TagsFitExactly`).
- a token with a NUL byte, such as the one for byte 0, reads back cut short (`TokenizerFile.CopyReads`,
  `TokenizerFile.NulTokenReadsEmpty`).
- the checksum field verifies for every length, but a verifier with a wider sum need not agree once the
  32-bit sum has wrapped (`Checksum.WiderVerifierAgrees`, `Checksum.WrappedSumFails`).
- the exporter rounds halves to even, the kernel away from zero; both stay within half a scale
  (`Quantization.RoundingsDiffer`, `Quantization.RoundingsAtHalf`).
- the encoder of llm.c spells something longer than its text whenever a character falls back to bytes
  (`SentencePiece.EncodeKeepsMeaning`, `SentencePiece.FallbackSpellsMore`); decode undoes that, unless the
  vocabulary can merge byte tokens or make one (`Decoding.MergingShows`, `Decoding.SwallowedByte`).

## Model

| member | source | states |
|---|---|---|
| `SchedulingRuns.StepInv` | kernel/src/sched.c:78-297 | Every event (timer tick, yield, create, exit, sleep, start) keeps the scheduler invariant: ids distinct, idle in the ring and runnable, `current` in the ring and runnable, nobody else running. |
| `SchedulingRuns.RunFromBoot` | kernel/src/sched.c:148-297 | After any feasible run of events from boot, the ring still has idle and `current`, both runnable, and no other thread is RUNNING. |
| `SchedulingRuns.PreemptInv` | kernel/src/sched.c:190-255 | sched_preempt establishes the invariant even when the entering thread has just become a zombie or gone to sleep. |
| `SchedulingRuns.PreemptIs` | kernel/src/sched.c:197-254 | sched_preempt either stays with the entering context or hands over to a runnable thread of the swept ring and resumes exactly that thread's saved context. |
| `SchedulingRuns.PreemptThread` | kernel/src/sched.c:197-254 | What one preemption does to any single thread: it may be woken, and only the two threads of the switch change otherwise; only zombies other than the entering thread can disappear. |
| `SchedulingRuns.PreemptResumes` | kernel/src/sched.c:244-254 | The context returned is the one saved by the thread that becomes current (or the entering one when it stays). |
| `SchedulingRuns.ReapPass` | kernel/src/sched.c:168-187 | On any ring, a reaping pass unlinks only zombies that are neither `current` nor `ring`, makes progress whenever there is one, and stops early exactly when the node right behind `ring` was reapable and another one was too. |
| `SchedulingReaping.EveryZombieReaped` | kernel/src/sched.c:168-283 | Over every run from boot, after any event that enters sched_preempt the only zombies left on the swept ring are `current` and the thread at `ring`: every other dead thread is unlinked by the next call. |
| `SchedulingReaping.OnlyHeadSurvives` | kernel/src/sched.c:168-187 | The exact condition, over every run from boot: a zombie other than the entering thread is still on the swept ring if and only if it is the thread at `ring`. |
| `SchedulingReaping.RunStray` | kernel/src/sched.c:168-283 | Over every run there is never more than one reapable zombie, so the early stop of a pass never leaves one behind. |
| `SchedulingReaping.PreemptClean` | kernel/src/sched.c:190-255 | With at most one reapable zombie on the ring, which RunStray provides, one sched_preempt leaves no zombie but the entering thread and the one at `ring`. |
| `SchedulingReaping.HeadStays` | kernel/src/sched.c:78-187 | `ring` never changes once the first thread is in it, over every run. |
| `SchedulingReaping.HeadNeverReaped` | kernel/src/sched.c:168-187 | If the thread at `ring` exits, it stays on the ring as a zombie through every later run. |
| `SchedulingReaping.FirstNeverReaped` | kernel/src/sched.c:100-283 | An input that shows it: a run from boot in which a thread created before sched_start is at `ring` and runs; after it exits it stays a zombie on the ring over every later run. |
| `SchedulingRuns.ExitDies` | kernel/src/sched.c:275-283 | thread_exit leaves its caller dead: a zombie or already gone, and never current. |
| `SchedulingRuns.DeadStaysDead` | kernel/src/sched.c:168-283 | A dead thread is never dispatched again, over every run. |
| `SchedulingRuns.DropDistinct` | kernel/src/sched.c:176-181 | Unlinking any set of nodes keeps the ids of the rest distinct. |
| `SchedulingRuns.CreateFind` | kernel/src/sched.c:100-146 | A created thread starts READY with the context of its first frame and changes no other thread. |
| `SchedulingSteps.QuantumKept` | kernel/src/sched.c:258-266 | A running thread keeps the processor for five ticks: until then a tick is counted and nothing else changes, the context included. |
| `SchedulingSteps.QuantumOver` | kernel/src/sched.c:190-266 | From then on, or when the current thread does not run, a tick wakes every sleeper that is due, whether or not another thread takes over. |
| `SchedulingSteps.QuantumOverSwitches` | kernel/src/sched.c:190-266 | And a ready thread that is not idle takes over from the current one, with a new slice. |
| `SchedulingSteps.OnlyTicksCount` | kernel/src/sched.c:258-297 | Ticks are counted by ticks alone. |
| `SchedulingSteps.PreemptChoice` | kernel/src/sched.c:208-242 | By places on the ring: the first ready or running thread behind the entering one that is not idle, itself last; idle only if there is no other. |
| `SchedulingSteps.PreemptStates` | kernel/src/sched.c:197-254 | Thread by thread, what one sched_preempt leaves: state, wake tick and context of each, and the start of the slice. |
| `SchedulingSteps.CreateStates` | kernel/src/sched.c:78-146 | A new thread goes right behind the one at `ring`, ready, with the next id. |
| `SchedulingSteps.StartStates` | kernel/src/sched.c:148-162 | Starting adds idle, running, right behind the one at `ring`, and starts its slice. |
| `SchedulingSteps.CallerBlocks` | kernel/src/sched.c:275-297 | At the call of sched_preempt an exiting thread is a zombie and a sleeping one asleep until ticks + ms modulo 2^64; nothing else has changed. |
| `SchedulingSteps.FreshFpu` | kernel/src/sched.c:60-64 | The FPU image of a new thread: control word 0x037F, MXCSR 0x1F80, zero elsewhere. |
| `SchedulingWaiting.PreemptCloser` | kernel/src/sched.c:208-254 | Each preemption dispatches a waiting thread or brings it strictly closer in ring order. |
| `SchedulingWaiting.WaitingRun` | kernel/src/sched.c:190-266 | A READY thread that has not been dispatched has seen fewer preemptions than its ring distance plus the threads created meanwhile, and fewer than five times as many ticks. |
| `SchedulingWaiting.BoundedWaiting` | kernel/src/sched.c:190-266 | Bounded waiting: after as many preemptions as the ring distance plus the creations, or five times as many ticks, the thread has been dispatched. |
| `SchedulingWaiting.SliceStaysYoung` | kernel/src/sched.c:258-266 | After a tick, if another non-idle thread is READY, the current slice is under five ticks old. |
| `SchedulingWaiting.StepCloser` | kernel/src/sched.c:100-266 | No event puts a waiting thread further back by more than a newly created thread, and none makes it stop waiting without dispatching it. |
| `SchedulingWaiting.StepAsleep` | kernel/src/sched.c:197-204 | A sleeper stays asleep through every event until its wake tick is reached. |
| `SchedulingWaiting.RunAsleep` | kernel/src/sched.c:197-204 | The same over whole runs. |
| `SchedulingWaiting.NoEarlyDispatch` | kernel/src/sched.c:285-297 | A thread that went to sleep is current again only when the tick counter has reached its wake tick, which is the requested time unless the 64-bit sum wraps. |
| `SchedulingWaiting.SleepFalls` | kernel/src/sched.c:285-297 | thread_sleep_ms puts its caller to sleep exactly when the wake tick lies in the future. |
| `SchedulingWaiting.WrappedSleepReturns` | kernel/src/sched.c:294-296 | A sleep so long that ticks + ms wraps in 64 bits does not sleep at all. |
| `SchedulingWaiting.LongestSleepReturns` | kernel/src/sched.c:294-296 | An input that shows it: at tick 1 a sleep of 2^64 - 1 ms leaves the caller runnable. |
| `Machine.FrameRoundTrip` | kernel/src/isr.asm:12-30 | What pushaq and the interrupt entry store, popaq and iretq load back: every register, from the same stack pointer. |
| `Machine.FrameLayout` | kernel/src/macros.asm:1-17 | At which address each of the twenty registers is stored, and that no other word changes. |
| `Machine.PushAllInside` | kernel/src/macros.asm:1-17 | Pushed words lie at descending addresses in push order. |
| `Machine.FrameStable` | kernel/src/macros.asm:19-35 | The registers restored depend on the twenty words of the frame only. |
| `MachineRuns.StoreApart` | kernel/src/isr.asm:12-30 | Storing a frame on one thread's stack leaves the frame saved on another thread's stack as it was. |
| `MachineRuns.ActInv` | kernel/src/sched.c:100-297 | Every activity of the machine (computation, interrupt, thread calls) keeps the whole-system invariant: each parked thread's frame lies inside its own stack. |
| `MachineRuns.CurrentAct` | kernel/src/isr.asm:12-30 | The running thread across an interrupt: it goes straight on with its registers and FPU image, or they are what is saved for it. |
| `MachineRuns.InterruptWrites` | kernel/src/isr.asm:12-30 | An interrupt writes the twenty words below the aligned stack pointer and no others. |
| `MachineRuns.ParkedAct` | kernel/src/sched.c:244-254 | One activity either resumes a parked thread with exactly its saved registers and FPU image, or leaves both untouched. |
| `MachineRuns.ParkedRun` | kernel/src/sched.c:190-255 | Over any run during which a thread is not on the CPU, what is saved for it does not change. |
| `MachineRuns.ParkedDispatch` | kernel/src/sched.c:244-254 | When the thread is dispatched after such a run, registers and FPU image are the saved ones. |
| `MachineRuns.ResumesExactly` | kernel/src/sched.c:190-255 | Context preservation: a thread switched out by an interrupt, yield or sleep, and switched in after any run, has exactly the registers and FPU image it had. |
| `MachineRuns.StartsInTrampoline` | kernel/src/sched.c:119-142 | On its first run a created thread starts at the trampoline with rdi = fn, rsi = arg, all other general registers zero, interrupts enabled, the stack pointer eight below the aligned top of its own stack, and the initial FPU image. |
| `Kernel.Scheduler.RingInsert` | kernel/src/sched.c:78-92 | In place on the linked ring: the node goes right behind `ring`. |
| `Kernel.Scheduler.ReapZombies` | kernel/src/sched.c:168-187 | The linked-list loop computes the pass described by Reap. |
| `Kernel.Scheduler.SchedPreempt` | kernel/src/sched.c:190-255 | The linked-ring code computes Preempt: new state, FPU image and returned stack pointer. |
| `Kernel.Scheduler.SchedTick` | kernel/src/sched.c:258-266 | Returns the given stack pointer with nothing changed while the current thread runs and has its quantum; otherwise sched_preempt. |
| `Kernel.Scheduler.ThreadCreate` | kernel/src/sched.c:100-146 | Fails without a change when memory is missing; otherwise the machine performs exactly the create activity: the new thread is in the ring and its first frame in memory. |
| `Kernel.Scheduler.BuildFrame` | kernel/src/sched.c:119-142 | Twenty pushes build exactly the frame that popaq and iretq will load. |
| `Kernel.Scheduler.SchedStart` | kernel/src/sched.c:148-162 | The machine performs exactly the start activity: the boot context becomes idle, current and running. |
| `Kernel.Scheduler.IsrTimer` | kernel/src/isr.asm:12-19 | Registers pushed, handler called, stack switched, registers popped: the machine goes by exactly the timer activity over which context preservation is proved. |
| `Kernel.Scheduler.IsrYield` | kernel/src/isr.asm:23-30 | The same for the voluntary interrupt. |
| `Kernel.Scheduler.SchedYield` | kernel/src/sched.c:268-273 | No effect before the scheduler is active, otherwise exactly the yield activity. |
| `Kernel.Scheduler.ThreadExit` | kernel/src/sched.c:275-283 | Marks the caller a zombie and switches away: exactly the exit activity. |
| `Kernel.Scheduler.ThreadSleep` | kernel/src/sched.c:285-297 | Once active, exactly the sleep activity until the wrapped wake tick; before that, a wait in place that changes no thread. |
| `Kernel.Scheduler.WakeAllSleepers` | kernel/src/sched.c:197-204 | The ring walk wakes exactly the sleepers whose time has come. |
| `Kernel.Scheduler.Choose` | kernel/src/sched.c:208-234 | The two scans pick the first runnable non-idle thread behind current, else the first runnable one. |
| `Kernel.Scheduler.constructor` | kernel/src/sched.c:66-71 | sched_init gives the state from which all runs start, and the machine invariant holds there. |
| `Kernel.Scheduler.TimerHandler` | kernel/src/sched.c:258-266 | Counting a tick and asking the scheduler is exactly the tick event. |
| `StacksOnHeap.NewStackIsFresh` | kernel/src/sched.c:100-119 | A stack that malloc returns is apart from the stack of every thread on the ring. |
| `StacksOnHeap.CreatedBlocks` | kernel/src/sched.c:102-114 | thread_create gets two live blocks of its own and touches no block of another thread. |
| `StacksOnHeap.CarvedThenFreed` | kernel/src/sched.c:107-112 | When the stack cannot be had, freeing the node leaves the heap as it was, block for block. |
| `StacksOnHeap.DoInv` | kernel/src/sched.c:100-297 | Whatever happens to threads and heap together keeps both invariants, and each event is one that the machine can perform: a new stack is apart from the others without being assumed so. |
| `StacksOnHeap.ReapedBlocks` | kernel/src/sched.c:168-187 | After an interrupt a thread's node and stack are live blocks if and only if the thread is still on the ring. |
| `StacksOnHeap.StacksApart` | kernel/src/sched.c:100-187 | Over every run, stacks of threads on the ring lie in live blocks and are apart, and exactly those threads own blocks. |
| `StacksOnHeap.CallsAreRun` | kernel/src/sched.c:100-297 | A run of threads and heap together is a run of the machine. |
| `StacksOnHeap.SurvivesOnHeap` | kernel/src/sched.c:190-255 | Context preservation with nothing assumed about new stacks: whatever is created and reaped meanwhile, a thread comes back to its registers and FPU image. |
| `HeapLayout.AllocGood` | kernel/src/heap.c:87-108 | Carving a block keeps the heap a gapless, aligned, merged tiling and adds exactly one live block. |
| `HeapLayout.CarvedExactly` | kernel/src/heap.c:92-104 | A block is split exactly when the rest can hold a header and sixteen bytes; then what is handed out has the size asked for and the rest stays one free block. |
| `HeapLayout.FirstMalloc` | kernel/src/heap.c:79-108 | An input: 100 bytes from an untouched heap are 112 bytes behind a header of 32. |
| `HeapLayout.FreeGood` | kernel/src/heap.c:141-146 | Freeing keeps the tiling and removes exactly that live block. |
| `HeapLayout.LiveDetermines` | kernel/src/heap.c:116-148 | The live blocks determine the whole block list: a merged tiling is canonical. |
| `HeapLayout.NothingLive` | kernel/src/heap.c:68-72 | A heap with nothing live is the single block of heap_init. |
| `HeapLayout.MallocThenFree` | kernel/src/heap.c:79-148 | malloc followed at once by free restores the block list exactly. |
| `HeapLayout.FreeInAnyOrder` | kernel/src/heap.c:128-148 | Freeing the same blocks in any other order gives the same block list. |
| `HeapLayout.FreeEverything` | kernel/src/heap.c:128-148 | Freeing every live block, in any order, gives back the single initial block. |
| `HeapLayout.FitsIffGap` | kernel/src/heap.c:87-113 | malloc finds a block if and only if somewhere between live blocks a header and the rounded size fit. |
| `HeapLayout.PayloadsApart` | kernel/src/heap.c:93-108 | Payloads of different live blocks are disjoint and 16-byte aligned. |
| `HeapLayout.TotalConserved` | kernel/src/heap.c:68-75 | Headers and payloads of all blocks add up to the region. |
| `HeapLayout.UsedAfterAlloc` | kernel/src/heap.c:105-106 | used_size grows by the carved block and its header. |
| `HeapLayout.UsedAfterFree` | kernel/src/heap.c:141-146 | used_size shrinks by the freed block and its header; merging does not change it. |
| `HeapLayout.RoundedIs` | kernel/src/heap.c:84 | Rounding gives a multiple of 16 that is not smaller unless the 64-bit sum wraps, which it does exactly for sizes above 2^64 - 16. |
| `Heap.KernelHeap.HeapInit` | kernel/src/heap.c:49-77 | The region is the largest granted size of the halving sequence, and the heap one free block; without a grant there is no heap. |
| `Heap.WishesAre` | kernel/src/heap.c:53-60 | The sizes asked for: 768 MiB, halved down to 24 MiB, in pages. |
| `Heap.KernelHeap.Malloc` | kernel/src/heap.c:79-114 | On the linked headers: NULL exactly for size 0, no heap or no fitting block; else the first fit is carved and `prev`/`next` links still match the list. |
| `Heap.KernelHeap.CoalesceWithNext` | kernel/src/heap.c:116-126 | Merges exactly when both blocks are free, and relinks the neighbour. |
| `Heap.KernelHeap.Free` | kernel/src/heap.c:128-148 | On the linked headers: the block is released and merged both ways; NULL and double free change nothing. |
| `Heap.KernelHeap.Calloc` | kernel/src/heap.c:150-159 | NULL exactly when the product overflows, is zero or does not fit; otherwise the bytes are zero and no others change. |
| `Heap.KernelHeap.Realloc` | kernel/src/heap.c:161-182 | All four cases: NULL as malloc, size 0 as free, a fitting block left alone, and otherwise the old contents moved and the old block freed, or everything as it was. |
| `Heap.ProductFits` | kernel/src/heap.c:152-153 | The division test of calloc is an exact overflow test. |
| `PageAllocator.PhysicalMemory.AllocPages` | kernel/src/pmm.c:107-136 | The lowest run of free pages, removed from the free set and zeroed; NULL if and only if there is no such run or count is 0. |
| `PageAllocator.PhysicalMemory.FreePages` | kernel/src/pmm.c:142-149 | Frees exactly those of the pages that lie below the highest one, page 0 excepted; an unaligned address changes nothing. |
| `PageAllocator.PhysicalMemory.Init` | kernel/src/pmm.c:40-98 | After pmm_init a page is free if and only if a usable entry covers it and it is neither page 0 nor part of the bitmap; it fails exactly when no entry can hold the bitmap. |
| `PageAllocator.HighestIs` | kernel/src/pmm.c:43-54 | The highest address is the highest end of an entry that counts. |
| `PageAllocator.BitmapSizeIs` | kernel/src/pmm.c:56-60 | One bit for each page, in whole bytes and none more. |
| `PageAllocator.PhysicalMemory.BitmapSet` | kernel/src/pmm.c:16-18 | Sets one bit of one byte and no other. |
| `PageAllocator.PhysicalMemory.BitmapClear` | kernel/src/pmm.c:20-22 | Clears one bit of one byte and no other. |
| `PageAllocator.SetBit` | kernel/src/pmm.c:16-18 | The OR with a shifted one, bit by bit. |
| `PageAllocator.ClearBit` | kernel/src/pmm.c:20-22 | The AND with its complement, bit by bit. |
| `PageAllocator.ServeAll` | kernel/src/pmm.c:107-149 | Over any sequence of allocations and frees, outstanding allocations never overlap, and free and held pages together stay the same set. |
| `PageAllocator.Taken` | kernel/src/pmm.c:117-129 | A new allocation overlaps no outstanding one. |
| `PageAllocator.Given` | kernel/src/pmm.c:142-149 | Giving one allocation back touches no other. |
| `PageTables.GetNextLevel` | kernel/src/vmm.c:44-65 | Follows a present entry, or links a fresh zeroed page with the table flags, or fails with memory and tables as they were; the tables stay a tree apart from the free pages, and no data page changes. |
| `PageTables.MapPage` | kernel/src/vmm.c:67-84 | Succeeds if and only if there are pages enough for the missing tables; then exactly the addresses of that page translate anew, through an entry that has bit 0, bits 12 to 51 of the physical address and every bit of the flags, and no others; on failure no translation changes. No page that is neither a table nor free changes its contents. |
| `PageTables.NoPageLeft` | kernel/src/vmm.c:44-84 | An input for which it fails: an empty root table and no free page. |
| `PageTables.UnmapPage` | kernel/src/vmm.c:86-103 | Removes the translation of exactly one page; no data page changes its contents. |
| `PageTables.DataThen` | kernel/src/vmm.c:44-103 | Keeping the contents of data pages composes; Perform has it for whole sequences. |
| `PageTables.WriteLeaf` | kernel/src/vmm.c:82-102 | The store into the last table changes the translation of exactly one page. |
| `PageTables.GetPhys` | kernel/src/vmm.c:105-123 | Returns bits 12 to 51 of the entry plus the page offset, 0 where the walk ends early. |
| `PageTables.LeafBits` | kernel/src/vmm.c:82 | The entry of a mapping, bit by bit. |
| `PageTables.LeafIsSum` | kernel/src/vmm.c:82 | For an aligned address and low flags the entry is their sum, with the present bit. |
| `PageTables.DeviceEntry` | kernel/src/e1000.c:135-137 | An input: the card at 0xFEBC0000 is mapped writable and uncached by the entry 0xFEBC0013. |
| `PageTables.TableEntryIsSum` | kernel/src/vmm.c:62 | The entry for a new table: its address, present, writable, user. |
| `PageTables.IndexBits` | kernel/src/vmm.c:68-71 | Nine bits of the address for each level, from bit 39, 30, 21 and 12 on. |
| `PageTables.WalkSteps` | kernel/src/vmm.c:44-84 | The walk level by level: every entry on the way is odd, and the next table is in its bits 12 to 51. |
| `PageTables.MappedPhys` | kernel/src/vmm.c:82-122 | After a mapping, the address translates to `(paddr & mask) + offset` if and only if the flags bring no address bit that paddr does not have. |
| `PageTables.FlagsSpoilAddress` | kernel/src/vmm.c:82-122 | An input that shows it: paddr 0 with flags 0x1000 translates to page 1. |
| `PageTables.KernelFlags` | kernel/src/vmm.c:67-82 | The flag bits below 12 and bit 63 bring none. |
| `PageTables.SamePageIs` | kernel/src/vmm.c:68-71 | The four indices agree exactly for addresses of the same page. |
| `PageTables.LinkKeepsTree` | kernel/src/vmm.c:56-62 | Linking a fresh zeroed page keeps the tables a tree. |
| `PageTables.LinkKeepsWalks` | kernel/src/vmm.c:56-62 | Linking an empty table changes no translation. |
| `PageTables.LeafChangesOneWalk` | kernel/src/vmm.c:82 | Writing a leaf entry changes the translation of that page only. |
| `PageTables.FreeWritesKeepTree` | kernel/src/pmm.c:122-127 | Zeroing free pages disturbs no table. |
| `PageTables.TableEntryIs` | kernel/src/vmm.c:62 | The entry written for a new table is present and names that table. |
| `PageTables.LeafEntryIs` | kernel/src/vmm.c:82-122 | What is read back from a leaf entry. |
| `PageTables.Perform` | kernel/src/vmm.c:67-103 | A sequence of mappings and unmappings refines a finite map from pages to entries: the last request for a page decides, and none is lost while pages last; when pages run out, exactly the requests that succeeded are carried out, in their order. |
| `Sampler.SortOrdered` | kernel/src/llm_common.c:136-150 | The insertion sort is a stable descending sort and a permutation. |
| `Sampler.CutIsExact` | kernel/src/llm_common.c:155-179 | Whenever the cut keeps anything, the nucleus of the kept tokens is, token for token in the same order, the nucleus of the stably sorted whole vocabulary. |
| `Sampler.AlwaysKeeps` | kernel/src/llm_common.c:157 | The cut keeps a token for every distribution over n tokens if and only if topp >= 1/n. |
| `Sampler.CutCanKeepNothing` | kernel/src/llm_common.c:157-170 | The input that shows the limit: two equal probabilities and topp = 1/4 keep nothing. |
| `Sampler.KeptIsHeavy` | kernel/src/llm_common.c:157-166 | What is kept weighs more than topp. |
| `Sampler.KeptIs` | kernel/src/llm_common.c:157-166 | The cut keeps exactly the tokens of at least (1 - topp) / (n - 1), in the order of their ids. |
| `Sampler.CutThenSort` | kernel/src/llm_common.c:155-167 | Sorting everything is sorting the kept tokens followed by sorting the dropped ones. |
| `Sampler.SortProbIndex` | kernel/src/llm_common.c:136-150 | The in-place loop computes that sort and leaves the rest of the array alone. |
| `Sampler.FindNucleus` | kernel/src/llm_common.c:169-179 | The summing loop stops at the end of the shortest prefix heavier than topp. |
| `Sampler.SampleTopp` | kernel/src/llm_common.c:152-190 | Returns the token of the nucleus at which the running sum passes the coin, and has nothing to return exactly when the cut kept nothing. |
| `Vocabulary.TokSort` | kernel/src/llm_common.c:34-75 | The in-place heapsort leaves a permutation sorted by strcmp. |
| `Vocabulary.BuildHeap` | kernel/src/llm_common.c:36-53 | The first loop makes the whole array a heap by permutation. |
| `Vocabulary.ExtractAll` | kernel/src/llm_common.c:36-74 | The second loop sorts it by permutation. |
| `Vocabulary.Sift` | kernel/src/llm_common.c:38-52 | The sift loop repairs the heap at one node and permutes only. |
| `Vocabulary.StrcmpTransitive` | kernel/src/string.c:12-20 | strcmp, compared as unsigned bytes, is transitive. |
| `Vocabulary.StrcmpZero` | kernel/src/string.c:12-20 | strcmp is zero exactly for equal strings. |
| `Vocabulary.StrcmpDiffers` | kernel/src/string.c:12-20 | The first difference decides, as unsigned bytes, and a string comes before its extensions. |
| `Vocabulary.TokLookup` | kernel/src/llm_common.c:77-92 | The binary search computes LookupId. |
| `Vocabulary.SearchFinds` | kernel/src/llm_common.c:77-92 | On a sorted array the search returns the id of an equal entry if there is one, and -1 otherwise. |
| `Vocabulary.BuildIndex` | kernel/src/qwen.c:286-291 | Sorting the index of the vocabulary keeps every entry with its own id. |
| `Vocabulary.LookupFinds` | kernel/src/llm_common.c:34-92 | Sort and search composed: an id whose string equals the query if and only if some vocabulary entry does, -1 otherwise. |
| `Bpe.FirstTokensSpell` | kernel/src/qwen.c:507-539 | The first loop's tokens spell the text exactly when no byte was dropped, special tokens included. |
| `Bpe.EveryByteKept` | kernel/src/qwen.c:530-538 | With a token for every byte nothing is dropped. |
| `Bpe.TagFirst` | kernel/src/qwen.c:507-537 | A tag of the vocabulary (from a '<' to the first '>', at most 64 bytes) at the start of the text becomes one token, and the rest follows. |
| `Bpe.ByteFirst` | kernel/src/qwen.c:530-538 | With no such tag there, the first byte becomes its own token, or is dropped if it has none. |
| `Bpe.TagWins` | kernel/src/qwen.c:507-537 | An input: over a vocabulary with "<a>" and its bytes the text "<a>" is one token. |
| `Bpe.MergesBest` | kernel/src/qwen.c:542-569 | One round, said of the vocabulary alone: of all neighbours whose joined text has a token, the leftmost with the highest score becomes that token. |
| `Bpe.MergesNothing` | kernel/src/qwen.c:542-563 | Merging ends when no neighbours have a token with a score. |
| `Bpe.BestIsBest` | kernel/src/qwen.c:542-560 | One round settles on the leftmost of the best-scoring mergeable pairs, and on none only if no pair is mergeable. |
| `Bpe.MergeKeepsText` | kernel/src/qwen.c:565-568 | Replacing a pair by its token keeps the spelled text. |
| `Bpe.MergedIs` | kernel/src/qwen.c:542-569 | The merge loop ends with no mergeable pair, the same text and no more tokens. |
| `Bpe.EncodeKeepsMeaning` | kernel/src/qwen.c:500-572 | The whole encoder: with a token for every byte the output spells the text and has no more tokens than bytes. |
| `Bpe.Encode` | kernel/src/qwen.c:500-572 | The in-place code computes that encoding within one token per byte; every string it looks up has been put together in a scratch buffer of twice the longest entry and three bytes, and none is cut. Without memory for the buffer there are no tokens. |
| `Bpe.TagsFitExactly` | kernel/src/qwen.c:502-527 | The scratch buffer holds the possible special tokens of every text if and only if the longest entry has at least 31 bytes; otherwise a tag of 64 bytes does not fit. |
| `Scratch.PutTwo` | kernel/src/qwen.c:551-552 | Two strings one after the other, cut to the size of the buffer, with a terminator. |
| `Scratch.LookupIn` | kernel/src/qwen.c:523-525 | Looking up what the buffer holds. |
| `Bpe.FindBest` | kernel/src/qwen.c:544-560 | The scan over all pairs, each put together in the scratch buffer, computes the best pair and its id. |
| `Bpe.MergeAll` | kernel/src/qwen.c:542-569 | The in-place rounds compute the merged tokens. |
| `SentencePiece.PiecesSpell` | kernel/src/llm.c:361-386 | Whole characters first, bytes as fallback: the tokens spell the text exactly when no piece fell back to bytes, and by how much they are longer otherwise. |
| `SentencePiece.EncodeKeepsMeaning` | kernel/src/llm.c:342-421 | With BOS, dummy space and EOS: the output spells markers and text exactly when nothing fell back, fits the buffer of length + 3, and has no mergeable pair before EOS. |
| `SentencePiece.Encode` | kernel/src/llm.c:343-421 | The in-place code computes that encoding within length + 3 tokens, every looked-up string put together in the scratch buffer. |
| `SentencePiece.NextPiece` | kernel/src/llm.c:362-372 | The loop finds the end of the piece, up to four bytes as long as continuation bytes follow, and leaves the piece in the scratch buffer. |
| `SentencePiece.PieceIsCharacter` | kernel/src/llm.c:361-372 | At the start of a UTF-8 character the piece is exactly that character. |
| `SentencePiece.PiecesAreCharacters` | kernel/src/llm.c:361-386 | On well-formed UTF-8 the first loop gives each character, one by one, its token or its byte tokens. |
| `SentencePiece.ContinuesIs` | kernel/src/llm.c:364-371 | The test for a continuation byte is (c & 0xC0) == 0x80. |
| `SentencePiece.Utf8Pieces` | kernel/src/llm.c:361-386 | The first loop takes a text in UTF-8 (section 3 of RFC 3629) code point by code point. |
| `SentencePiece.PieceTokensAre` | kernel/src/llm.c:374-386 | A piece becomes the token that spells it, or one token for each byte, three above the byte. |
| `SentencePiece.MarkersAre` | kernel/src/llm.c:350-420 | Id 1 in front, the token of a space before a text, id 2 behind. |
| `SentencePiece.FallbackSpellsMore` | kernel/src/llm.c:379-384 | An input whose tokens do not spell it: a character without a token. |
| `Decoding.PiecesShow` | kernel/src/llm.c:325-386 | Before any merging, over a vocabulary whose byte tokens have their names, decode prints exactly the text, whether its characters have tokens or fall back to bytes. |
| `Decoding.HexShows` | kernel/src/llm.c:332-338 | A piece that starts like a byte token shows as the byte that its two digits name, whatever follows. |
| `Decoding.MergingShows` | kernel/src/llm.c:325-417 | Merging keeps what decode prints of every token list if and only if no two vocabulary entries that can merge print something else once they are one. |
| `Decoding.MergedOpened` | kernel/src/llm.c:391-417 | Merging keeps BOS in front, the space behind it, and no further marker. |
| `Decoding.DecodeEncode` | kernel/src/llm.c:325-421 | The round trip: for every text, over such a vocabulary with named byte tokens and unmergeable markers, decode prints the tokens of the text as the text, the leading space dropped. |
| `Decoding.SmallFaithful` | kernel/src/llm.c:325-421 | A vocabulary that meets these conditions, with entries that merge. |
| `Decoding.LettersMerge` | kernel/src/llm.c:325-421 | There, a text whose two letters merge into one token is printed as it was given. |
| `Decoding.SwallowedByte` | kernel/src/llm.c:331-338 | An input that fails without them: a letter merged with a byte token is printed with the name of the byte token. |
| `Decoding.Echo` | kernel/src/llm.c:549-580 | The loop over a prompt prints its tokens up to the first marker. |
| `Decoding.EncodeThenEcho` | kernel/src/llm.c:528-580 | The code end to end: the prompt that is encoded is the text that is printed. |
| `KvCache.RunState.Forward` | kernel/src/llm.c:158-258 | With any rows behind the prefix, the cached forward returns the logits of the stateless recomputation of the whole prefix and leaves a cache that holds the longer prefix. |
| `KvCache.RunState.Attend` | kernel/src/llm.c:206-233 | One head reads rows 0 to pos only and equals the reference head. |
| `KvCache.HeadTakesIn` | kernel/src/llm.c:206-233 | The reference head takes in every value row from the first to the last, once, each with the softmax weight of its score. |
| `KvCache.FirstRow` | kernel/src/llm.c:206-233 | At the first position it takes in the only row. |
| `KvCache.HeadIsSum` | kernel/src/llm.c:206-233 | Over the reals a head is the sum of weight times row over all rows. |
| `KvCache.EqualRows` | kernel/src/llm.c:206-233 | If all rows are equal, weights that sum to one give that row back. |
| `KvCache.RowIs` | kernel/src/llm.c:178-205 | Row i comes from the layer's input for the first i + 1 tokens, at position i. |
| `KvCache.LayersAre` | kernel/src/llm.c:158-258 | The reference network from the embedding through every layer to the logits. |
| `KvCache.RunState.StoreRows` | kernel/src/llm.c:178-185 | A row is written where no other layer or position has one. |
| `KvCache.RowsApart` | kernel/src/llm.c:179-181 | Rows of different layers or positions never coincide. |
| `KvCache.RowsArePrefixes` | kernel/src/qwen.c:396-403 | Row i of a layer depends on tokens 0 to i only. |
| `KvCache.RunState.Generate` | kernel/src/llm.c:549-585 | The generation loop returns the tokens of the reference that recomputes everything, whatever an earlier generation left in the cache. |
| `KvCache.PromptIsFed` | kernel/src/llm.c:549-567 | A prompt without markers is fed token by token, and the sampler is not asked before its end. |
| `KvCache.SampledIsFed` | kernel/src/llm.c:556-580 | Behind it a sampled 1 or 2 ends the run, and any other token is fed. |
| `Quantization.RoundError` | kernel/src/qwen.c:146-147 | Rounding half away from zero by truncation is off by at most one half and stays in [-127, 127]. |
| `Quantization.CloseWhenScaled` | kernel/src/qwen.c:144-148 | A rounded value is within half a scale of the original. |
| `Quantization.Quantize` | kernel/src/qwen.c:124-150 | Every whole group gets the scale of its largest magnitude; every code is the value over the scale rounded half away from zero, 0 in a group of zeros, in [-127, 127] and within half a scale. |
| `Quantization.GroupDot` | kernel/src/qwen.c:163-172 | The four unrolled 32-bit accumulators never leave the 32-bit range and add up to the integer dot product of the group. |
| `Quantization.GroupFactors` | kernel/src/qwen.c:173-174 | Within a group both scales can be taken out of the sum exactly. |
| `Quantization.MatmulRow` | kernel/src/qwen.c:157-176 | For every row length: a row that starts a group gives exactly the dot product of the dequantized operands over its whole groups, which is all of it when the row is whole groups. |
| `Quantization.Matmul` | kernel/src/qwen.c:153-178 | Every such output is that dot product, and no other output changes. |
| `Quantization.OutputError` | kernel/src/qwen.c:124-178 | Against the unquantized activations, the error is at most the sum of half-scales weighted by the magnitudes of the weights. |
| `Quantization.Q80Close` | tools/export_qwen3.py:52-60 | The exporter keeps the same promise: every code in [-127, 127] and within half a scale, zero groups included. |
| `Quantization.RoundingsDiffer` | tools/export_qwen3.py:58 | Exporter and kernel round a value differently if and only if it is halfway between two integers and the one away from zero is odd. |
| `Quantization.RoundingsAtHalf` | tools/export_qwen3.py:58 | Inputs of both kinds: 0.5 differs, 1.5 does not. |
| `Checkpoint.Export` | tools/export_qwen3.py:74-118 | The loops write the header and the tensors in that order, each tensor's codes before its scales. |
| `Checkpoint.Load` | kernel/src/qwen.c:305-361 | Refuses a wrong magic or version, caps the context at 1024 and computes every weight pointer by advancing over the file. |
| `Checkpoint.MapTensors` | kernel/src/qwen.c:192-208 | The pointers of consecutive tensors and where the next group starts. |
| `Checkpoint.LoadsWhatWasWritten` | kernel/src/qwen.c:317-361 | For every well-formed model, loading what was written gives the same configuration, each pointer lands on the tensor of that name, layer by layer, and the last one ends at the end of the file. |
| `Checkpoint.HeaderReadsBack` | kernel/src/qwen.c:305-318 | The 256-byte header decodes to the configuration that was packed, signed fields included. |
| `Checkpoint.HeaderFields` | tools/export_qwen3.py:74-95 | Each field of the header at its byte. |
| `Checkpoint.FileOrder` | tools/export_qwen3.py:96-118 | The fifteen pieces of the file in order, codes before scales. |
| `Checkpoint.LayoutStarts` | kernel/src/qwen.c:321-350 | Where the loader's pointers start, in bytes. |
| `Checkpoint.MappedAt` | kernel/src/qwen.c:192-208 | Tensor l of a group lies l tensors behind the first, its scales right behind its codes. |
| `Checkpoint.PieceLength` | kernel/src/qwen.c:323-359 | Each region written has the length by which the loader advances. |
| `Checkpoint.CursorIsStart` | kernel/src/qwen.c:323-359 | The loader's cursor is at the start of each region, so the regions tile the file. |
| `Checkpoint.TensorsHeld` | kernel/src/qwen.c:199-205 | A group of tensors written one after the other is found by map_tensors. |
| `Checkpoint.ElementAt` | kernel/src/qwen.c:120-121 | Element e of a tensor is code e % 64 of group e / 64, and the scale at index e / 64 is that group's. |
| `WeightsOnDisk.ReadsBack` | kernel/src/qwen.c:115-122 | Each code and scale written by the exporter is what the kernel reads at its place in the mapped file. |
| `WeightsOnDisk.LoadedIsClose` | kernel/src/qwen.c:115-122 | Each weight that the kernel dequantizes from the file is within half its group's scale of the weight that was exported. |
| `WeightsOnDisk.RowError` | kernel/src/qwen.c:157-176 | A dot product with weights that are each close is off by at most the half-scales weighted by the magnitudes of the activations. |
| `WeightsOnDisk.QueryRow` | kernel/src/qwen.c:153-178 | From exporting a model through loading it to one row of a product: off from the product with the original weights by at most that bound. |
| `TokenizerFile.Export` | tools/export_qwen3.py:162-171 | One row per id, missing ids as empty strings with the lowest score; the header has the length of the longest string of the table. |
| `TokenizerFile.RowCarries` | tools/export_qwen3.py:162-171 | A row has the score and the string of its table entry; an id without one the lowest score and no string. |
| `TokenizerFile.EntryLayout` | tools/export_qwen3.py:166-171 | A row of the file: score, length in four bytes, low byte first, string. |
| `TokenizerFile.ParseExact` | kernel/src/qwen.c:266-281 | The reader accepts exactly the data that starts with the encoding of that many tokens, and returns those tokens. |
| `TokenizerFile.ExportParses` | kernel/src/qwen.c:252-281 | Reading an exported file gives the three header words, every score and every string, whatever follows. |
| `TokenizerFile.Tokenizer.Build` | kernel/src/qwen.c:245-281 | Succeeds exactly on such data when memory is granted; every NUL-terminated copy lies in an arena of the file's size, intact at the end. |
| `TokenizerFile.CopyReads` | kernel/src/qwen.c:276-279 | A copy reads back as its token exactly when the token has no NUL byte. |
| `TokenizerFile.NulTokenReadsEmpty` | kernel/src/qwen.c:276-279 | An input that does not: the token of byte 0 reads as the empty string. |
| `VocabularyOnDisk.Load` | kernel/src/qwen.c:245-293 | Reading an exported vocabulary gives exactly its strings and scores, and the sorted index of them. |
| `VocabularyOnDisk.ExportThenEncode` | kernel/src/qwen.c:245-572 | From exporting a vocabulary through loading it to encoding a text: the tokens spell the text. |
| `VfsPaths.PrintResolve` | kernel/src/vfs.c:226-250 | Resolving the printed path of a node with ordinary names returns the node if and only if its depth is at most 32 and the text is shorter than the buffer (a one-byte buffer holds the empty text, which is cwd). |
| `VfsPaths.DeepPathMisses` | kernel/src/vfs.c:235-238 | An input that shows the depth limit: the printed path of a directory 33 deep leads to another directory. |
| `VfsPaths.LongPathMisses` | kernel/src/vfs.c:240-249 | An input that shows the limit of the buffer: a path of two characters in a buffer of two leads to the root. |
| `VfsPaths.SplitText` | kernel/src/vfs.c:240-248 | Printing then splitting gives the names back. |
| `VfsPaths.SplitJoin` | kernel/src/vfs.c:39-60 | The texts on both sides of a slash are split on their own. |
| `VfsPaths.ResolveOneIs` | kernel/src/vfs.c:70-82 | "." stays, ".." goes to the parent and stays at the root, a name goes to that child if there is one. |
| `VfsPaths.ResolveThen` | kernel/src/vfs.c:50-84 | More components are resolved from where the first leads, which must be a directory. |
| `VfsPaths.LookupStarts` | kernel/src/vfs.c:37 | A slash in front means the root, otherwise the current directory. |
| `VfsPaths.CutMisses` | kernel/src/vfs.c:237-249 | A path cut short, by depth or by the buffer, never resolves to the node. |
| `VfsPaths.ResolveWeight` | kernel/src/vfs.c:50-84 | Resolution never reaches a path longer than its start and the text spent. |
| `VfsPaths.ParentThenLeaf` | kernel/src/vfs.c:62-67 | Resolving a path is looking up its last component in what vfs_resolve_parent returns. |
| `VfsPaths.MadeResolves` | kernel/src/vfs.c:118-160 | After a successful vfs_mkdirs from a directory, vfs_resolve of the same path returns that node, then and in every larger tree, and repeating the call makes nothing, whatever memory is left. |
| `VfsPaths.MadeResolvesFrom` | kernel/src/vfs.c:135-136 | From any start, success implies that the path resolves to the node if and only if the start is a directory, or the path is not a dot followed by more. |
| `VfsPaths.DotFromFile` | kernel/src/vfs.c:135-136 | The input that shows it: "./." from a file. |
| `VfsPaths.MakeAdds` | kernel/src/vfs.c:118-160 | vfs_mkdirs only adds directories named by components of its path, each shorter than 64. |
| `VfsPaths.MakeSucceeds` | kernel/src/vfs.c:118-160 | vfs_mkdirs succeeds for names shorter than 64 from a directory, with memory, if no prefix is a file. |
| `VfsPaths.MakeFails` | kernel/src/vfs.c:118-160 | It makes nothing at a longer name, at a file, in a file and without memory. |
| `VfsPaths.MakeDots` | kernel/src/vfs.c:135-142 | "." and ".." move as in resolution and make nothing. |
| `Vfs.FileSystem.constructor` | kernel/src/vfs.c:8-15 | The tree of one root directory. |
| `Vfs.FileSystem.DirFind` | kernel/src/vfs.c:22-30 | The sibling walk finds the child of that name if and only if there is one. |
| `Vfs.FileSystem.Walk` | kernel/src/vfs.c:34-85 | The pointer walk returns the node at the place that resolving the text gives, from the root if the text starts with a slash, else from the given directory; with stop_at_last the parent and where the final component starts. |
| `Vfs.FileSystem.Create` | kernel/src/vfs.c:97-116 | Fails in exactly the listed cases and then changes nothing; otherwise one fresh node is added at the front of the directory's list, and sibling names stay unique. |
| `Vfs.FileSystem.Mkdirs` | kernel/src/vfs.c:118-160 | The loop leaves the tree and returns the node that Make describes from the root or the given directory, keeping every existing node in place. |
| `Vfs.FileSystem.Unlink` | kernel/src/vfs.c:206-224 | Fails exactly for NULL, the root and directories with children; otherwise exactly that node leaves the tree and its list, and every list keeps its order. |
| `Vfs.FileSystem.NodePath` | kernel/src/vfs.c:226-250 | The buffer holds the printed text, cut to the last 32 names and the buffer size, with its terminator; nothing behind the given size changes. |
| `Vfs.FileSystem.PrintThenWalk` | kernel/src/vfs.c:34-250 | Printing the path of a node and walking the text from any directory leads back to the node exactly when at most 32 names and the whole text were printed (or the walk of the empty text starts at it). |
| `VfsFiles.File.Write` | kernel/src/vfs.c:162-191 | Succeeds exactly for a writable file whose data fits or can grow; the contents are overlaid, and a gap reads as zero. |
| `VfsFiles.File.Truncate` | kernel/src/vfs.c:193-204 | Shorter keeps a prefix, longer reads as zero, also over bytes that an earlier truncation had cut off. |
| `VfsFiles.WriteInPieces` | kernel/src/vfs.c:185-190 | Writing in consecutive pieces is writing at once. |
| `VfsFiles.WritesCommute` | kernel/src/vfs.c:185-190 | Writes to ranges that do not meet commute. |
| `NicRing.RxRing.constructor` | kernel/src/e1000.c:178-193 | The initial registers give the card 31 descriptors. |
| `NicRing.RxRing.CardReceive` | kernel/src/e1000.c:188-193 | The card takes a frame exactly when it owns its head descriptor and writes no descriptor it does not own (section 3.2.6 of the Intel 8254x Software Developer's Manual). |
| `NicRing.RxRing.Recv` | kernel/src/e1000.c:252-270 | Delivers the oldest waiting frame, cut to the caller's room, leaves RDT one behind rx_tail modulo 32, and changes no descriptor that the card owns. |
| `NicRing.RxRing.Ownership` | kernel/src/e1000.c:257-259 | A descriptor that the driver finds done is not the card's; the card owns exactly the places without a waiting frame except the spare one. |
| `NicRing.RxRing.Drive` | kernel/src/e1000.c:252-270 | Over any interleaving the ring is a queue of at most 31 frames. |
| `NicRing.Conservation` | kernel/src/e1000.c:252-270 | Over any interleaving, the frames waiting at first followed by those accepted are the frames delivered followed by those still waiting: in order, once each. |
| `NicRing.WaitingBound` | kernel/src/e1000.c:189-193 | Never more than 31 frames wait. |
| `NicRing.NothingClipped` | kernel/src/e1000.c:261-264 | A caller with enough room receives every delivered frame whole. |
| `Checksum.FoldCarries` | kernel/src/net.c:83-84 | The fold loop ends and keeps the sum modulo 65535; only zero folds to zero. |
| `Checksum.FoldIs` | kernel/src/net.c:83-84 | The folded sum in closed form. |
| `Checksum.WordSumIs` | kernel/src/net.c:74-82 | Bytes at even places count 256 times, those at odd places once. |
| `Checksum.TextbookSum` | kernel/src/net.c:71-86 | The example of section 3 of RFC 1071, and a single byte. |
| `Checksum.Checksum16` | kernel/src/net.c:71-86 | The loop computes the complement of the folded, 32-bit wrapped sum of big-endian words, odd lengths padded. |
| `Checksum.StoredVerifies` | kernel/src/net.c:208-211 | Storing the result in its zeroed, even-offset field makes a second checksum zero, for every length, even where the 32-bit sum wraps. |
| `Checksum.WiderVerifierAgrees` | kernel/src/net.c:71-86 | A verifier that cannot wrap accepts if and only if the number of wraps is a multiple of 65535, so always up to 131074 bytes (section 1 of RFC 1071). |
| `Checksum.WrappedSumFails` | kernel/src/net.c:71-86 | A buffer on which it does not: 131076 bytes of 0xFF behind a cleared field. |
| `Checksum.OneWordChanged` | kernel/src/net.c:71-86 | Replacing one aligned word of a verified buffer goes unnoticed only between the two zeros of one's complement, and exactly then. |
| `Checksum.FillIn` | kernel/src/net.c:557-558 | Clearing, computing and storing in place: the buffer verifies and no byte outside the field changes. |
| `Checksum.IpHeader` | kernel/src/net.c:200-211 | The header built by ip_send verifies (section 3.1 of RFC 791) and carries the given fields. |
| `Checksum.EchoReply` | kernel/src/net.c:273-289 | Replies exactly to echo requests that have a header; the reply verifies and keeps identifier, sequence number and data. |

## Left out

Scheduler and machine:
- Kernel.Scheduler.ThreadCreate: the whole call is one atomic step; the increment of `next_id` happens with
  interrupts on in the source, and ids are unbounded here.
- Kernel.Scheduler.SchedStart: the allocation of the idle thread is taken to succeed, as the code does; its
  halt loop is left out.
- Kernel.Scheduler.ReapZombies: the linked code does not call free; what is freed is in `StacksOnHeap.ReapedBlocks`,
  on values.
- StacksOnHeap.DoInv: the node of the idle thread belongs to nobody in particular, since it is never freed.
- Kernel.Scheduler.SchedPreempt: the stack that the C handler itself uses below the frame is not modelled.
- thread names, sched_thread_count and sched_dump: bookkeeping without an invariant.

Memory:
- Heap.KernelHeap.Malloc: sizes are 64-bit words; allocator messages are not modelled.
- Heap.KernelHeap.Realloc: sizes whose rounding wraps (above 2^64 - 16) are excluded.
- Heap.KernelHeap.Free: the pointer is NULL or one that malloc returned; anything else reads a header that is
  not there.
- PageAllocator.PhysicalMemory.FreePages: runs past the end of the bitmap, which the code would write behind.
- PageAllocator.PhysicalMemory.Init: the bitmap is kept beside the modelled memory words, and usable entries
  come in whole pages as the boot protocol promises; missing boot loader responses are left out.
- PageTables.MapPage: TLB invalidation, the direct-map offset and huge pages are left out.
- vmm_init and vmm_switch_pml4: register accesses.

Inference:
- Sampler.SampleTopp: exact reals; a vocabulary of one token (division by zero) and NaN are excluded, and the
  last fallback return is unreachable in exact arithmetic but for the read in front of the array.
- argmax, plain multinomial sampling, temperature and the random generator: easier members or bit mixing.
- Bpe.Encode: no entry is longer than the header says, tags fit the scratch buffer, and the header is below
  2^31 - 1, so that the 32-bit size given to snprintf does not wrap.
- SentencePiece.Encode: the same bounds; the ids that the code does not check, BOS and the byte tokens it
  appends, are required to exist, and the allocation of the scratch buffer, which it does not check either, is
  taken to succeed.
- Decoding.Echo: the prompt fits the step limit and is echoed; sampling behind it is left out.
- Decoding.DecodeEncode: its conditions on the vocabulary are exact for merging alone; entries shorter than a
  byte token are taken not to look like one, where the code would read past their end, and what the screen
  cannot show is not filtered.
- KvCache.RunState.Forward: normalisation, rotation, softmax weights and the feed-forward part are opaque functions.
- KvCache.RunState.Generate: the loop of llama_generate; the stop rule of the Qwen chat loop and the emission of text
  are left out.
- Quantization.Quantize: exact reals instead of IEEE floats; groups are at most 132104 long.
- Checkpoint.Load: sizes are unbounded instead of 64-bit; a file shorter than its header and negative
  dimensions, with which the code reads outside the file, are excluded; run-state buffers and messages are
  left out.
- WeightsOnDisk.QueryRow: the four bytes of a scale are taken to read back as the number that was stored.
- TokenizerFile.Export: how tokens and merge ranks are gathered from the source vocabulary, and the float
  value of a score.
- TokenizerFile.Tokenizer.Build: the final sort is `Vocabulary.BuildIndex`.

Filesystem and network:
- Vfs.FileSystem.Create: the allocator's answer is a parameter; initrd loading is left out.
- Vfs.FileSystem.Unlink: the memory of the node and its data is not returned to the heap model.
- Vfs.FileSystem.NodePath: a buffer of size 0 for a node other than the root, for which the code writes out of
  bounds, is excluded.
- VfsFiles.File.Write: the file part of a node is a class of its own; sizes near 2^64 are excluded, and files
  backed by boot modules are only refused.
- NicRing.RxRing.CardReceive: frames fit one buffer, since long packets are not enabled.
- the transmit ring, PCI and register set-up, ARP, UDP, DHCP, DNS and timeouts.
- Checksum.Checksum16: a negative length, which no caller passes, is excluded.
