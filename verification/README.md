# Pintos kernel: models and proofs

Pintos is a small teaching kernel for the 80x86. This project models the parts of it where
several pieces of code must agree about shared state or where the arithmetic is delicate,
and proves what those parts promise: the priority scheduler with donation, the
multi-level feedback queue arithmetic, 64-bit division, the file system, the kernel heap,
and a group of smaller components. The models are of the `Project 2` tree; the bitmap and
the hash table are those of the `Project 1a` tree.

How the models are built:

- A part that changes fields in place is a class whose methods change the same fields
  (`SchedulerKernel.Kernel`, `MlfqsKernel.Kernel`, `FsClass.FileSystem`, `FsDevice.Device`,
  `HeapClass.Allocator`, `HashTable.Table`, `Bitmaps.Bitmap`, `Pagedir.PageDirectory`,
  `Stdio.Buffer`, `Arguments.Tokenizer`, `Loader.Process`). Its methods are proved against
  functions of the old state, and the theorems are about those functions and about runs.
- The scheduler is a state machine. A step is a region of code that runs with interrupts off; a
  thread that blocks in `sema_down` ends its step there, and tests the semaphore again in a
  later step `Resume`. `Scheduler.Apply` and `Scheduler.Enabled` define the runs.
- The file system has three layers: a device of 512-byte sectors, the system that the code
  maintains (sectors, free map, open inodes, open files), and the abstract
  `FsModel.Model`, which maps names to files, files to byte strings and handles to positions.
- The heap's operations are described by what they do to the pool's map, the arenas and the free
  lists; `live` records what was asked for each block in use.
- Results of memory allocation, and the addresses it returns, are parameters (`memoryOk`, `addr`,
  `alloc`, `mallocOk`, `bounceOk`, `mapOk` and so on), so both outcomes are covered, except where "Left out" says
  otherwise. That includes the bounce buffers for reads and writes of directories, of the free map and of headers.
- `saved` of the file system records whether the last write of the free map to its file was complete.
- `SchedulerLaws`, `MlfqsLaws`, `FsStreams`, `LoaderLaws` and `StdioLaws` say what a user sees, in terms of inputs, results and
  whole runs, without the functions against which the methods are proved.
- Fixed-width arithmetic is written out with `U32`, `S32`, `U64` and `S64` of `Machine.dfy`.

The invariants are not empty assumptions: the boot states of the scheduler, of the queue arithmetic, of the heap
and of an empty hash table satisfy theirs (`SchedulerTheorems.InitInv`, `Mlfqs.StartIsInv`, the constructors of
`HeapClass.Allocator` and `HashTable.Table`), and so does a freshly formatted disk (`FsFormat.FormatIsEmpty`).

What holds less often than the code seems to intend is stated exactly:

- `umod64` is right for every dividend exactly when the divisor is at most 2^32, `smod64` exactly
  when it is within 2^31 of zero (`Division64.UModExact`, `Division64.SModExact`).
- Donation repairs the first eight edges of a chain, and all of them exactly if the chain does not go on to a
  ninth holder that it has not met and that the donor outranks (`SchedulerTheorems.DonationRestoresAllEdges`,
  `SchedulerTheorems.DonationStopsAfterEight`).
- `lock_acquire` orders a donation list by a word that is a pointer, not by priority, so the place of a donor is a
  parameter of its step. `priority_check_from_donation_list` finds the highest priority exactly if no donor is above
  the base or the first donor is a highest one (`SchedulerDonors.FirstDonorDecides`, `SchedulerDonors.FirstDonorIsNotHighest`).
- Donation does not move a READY thread on the ready list. Outside interrupts the highest ready thread runs after every
  step exactly if the step does not starve a thread in that way (`SchedulerOrder.StepOrder`, `SchedulerOrder.DonationCanStarve`).
- A hundred times a fixed-point number can be read as an integer exactly inside the range in
  `Mlfqs.ReadingIsExact`; the load average always is, `recent_cpu` need not be (`MlfqsReadings.RecentCpuMayBeUnreadable`).
- Under the multi-level feedback queue only the running thread is recomputed every fourth tick, so a priority can be up to
  19 above its formula, and in some runs is (`MlfqsLaws.PriorityLags`, `MlfqsLaws.LagIsReached`).
- `malloc` returns a block that is large enough exactly when the size is at most
  0xFFFFFFF4 (`HeapLemmas.BigPagesFit`); the check in `calloc` lets some products that wrap
  around through (`HeapClass.CallocMissesWrap`, `HeapClass.CallocAsksForEnough`).
- The copy in `realloc` stays inside the new block exactly if the request is at most 0xFFFFFFF4 or the old block is no
  larger than what is left of one page (`HeapClass.FitIs`, `HeapClass.ReallocOverruns`).
- A `filesys_create` that fails in `dir_add` keeps the sectors meant for the contents, which is visible exactly if
  the file is not empty (`FsClass.FileSystem.FilesysCreate`, `FsModel.LeakShows`, `FsTheorems.EmptyNameLeaks`). Exactly
  such calls lose sectors during a run (`FsTheorems.StepAccounts`, `FsTheorems.NothingIsLost`).
- A file that has no name any more but is open when the system shuts down loses exactly its sectors
  (`FsMount.RemovedButOpenIsLost`); everything else survives (`FsMount.MountKeeps`).
- `pagedir_destroy` frees no page twice exactly if every page has one owner, which `pagedir_set_page` keeps exactly
  for new frames (`Pagedir.PageDirectory.Destroy`, `Pagedir.PageDirectory.SetPage`).
- `dir_add` takes a read that fails for lack of memory for the end of the directory. It keeps the other names exactly
  if neither its search for the name nor its search for a slot is misled (`FsClass.FileSystem.DirAdd`,
  `FsEffects.AddKeepsNames`, `FsModel.ShortReadHarms`). The theorems about runs are about calls that keep them.
- The copy of the free map on disk is right exactly as long as it could be saved (`FsClass.FileSystem.FreeMapRelease`).
- `setup_stack` pads to a multiple of its `WORD_SIZE`, which is 5. The stack pointer is aligned to words exactly for some
  sizes of the strings (`Arguments.AlignedExactlyWhen`, `Arguments.PaddingIsNotAlignment`).
- A conversion with zero padding and a negative width is padded on both sides, so that it has the field width
  exactly if its content fills it (`Stdio.WidthIsKept`, `Stdio.PaddedTwice`).
- `atoi` reads back what `%d` wrote, for every int and every flag, exactly if digits are not grouped or there is only one
  group (`Stdio.AtoiReadsBack`, `Stdio.GroupingIsLost`).

## Model

| member | source | states |
|---|---|---|
| Division64.Nlz | Project 2/src/lib/arithmetic.c:41-73 | The result n is the one for which bit 31 − n is the highest set bit of the word |
| Division64.DivideBySmallIsFloor | Project 2/src/lib/arithmetic.c:80-112 | Two 64/32 divisions in sequence give the floor of n/d for every nonzero 32-bit d; neither quotient overflows 32 bits |
| Division64.Normalise | Project 2/src/lib/arithmetic.c:121-123 | Shifting a large divisor by nlz of its high word does not lose bits, fills the top bit of a 32-bit word, and bounds d between two multiples of that word |
| Division64.Estimate | Project 2/src/lib/arithmetic.c:123 | With a normalised divisor the estimate is the true quotient or one more, and (q − 1)·d never exceeds n |
| Division64.LargeDivisor | Project 2/src/lib/arithmetic.c:120-123 | The hardware divide of the estimate does not trap, and the estimate it yields is within one of the quotient |
| Division64.Correction | Project 2/src/lib/arithmetic.c:124 | Comparing the remainder of q − 1 with d selects the true quotient of the two candidates |
| Division64.UDiv64 | Project 2/src/lib/arithmetic.c:77-127 | For every n and every d other than 0 the result is the floor of n/d; division by zero traps |
| Division64.SDiv64 | Project 2/src/lib/arithmetic.c:139-146 | Signed division truncates toward zero on every input but the one whose quotient does not fit, where it wraps around |
| Division64.UMod64 | Project 2/src/lib/arithmetic.c:131-135 | The result is the low 32 bits of the true remainder |
| Division64.SMod64 | Project 2/src/lib/arithmetic.c:150-154 | The result is the low 32 bits, as a signed number, of the remainder that has the sign of the dividend |
| Division64.UModExact | Project 2/src/lib/arithmetic.c:131-135 | umod64 is the remainder for every dividend if and only if the divisor is at most 2^32 |
| Division64.SModExact | Project 2/src/lib/arithmetic.c:150-154 | smod64 is the remainder for every dividend if and only if the divisor lies in −2^31..2^31 |
| SchedulerInvariants.InsertOrderedContents | Project 2/src/threads/thread.c:686-698 | Ordered insertion adds exactly the new thread, once |
| SchedulerInvariants.InsertOrderedSorted | Project 2/src/threads/thread.c:686-698 | Ordered insertion into a list sorted by priority leaves it sorted |
| SchedulerInvariants.InsertOrderedPlace | Project 2/src/lib/kernel/list.c:445-459 | The new thread goes behind every thread that is not lower and in front of the first lower one, so equal threads are served in the order of arrival |
| SchedulerInvariants.InsertDonorContents | Project 2/src/threads/synch.c:258-263 | Wherever a donor enters the list, the list gains exactly that donor, once |
| SchedulerRuns.StepKeepsInv | Project 2/src/threads/synch.c:76-330 | Every step, of every thread, in any enabled state, wherever a donor enters its list, keeps the whole scheduler invariant: threads in exactly one list, lock values and holders, donation lists, base priorities, wakeups |
| SchedulerTheorems.InitInv | Project 2/src/threads/thread.c:114-148 | A state with a running thread, an idle thread and free locks satisfies the invariant |
| SchedulerTheorems.RunKeepsInv | Project 2/src/threads/synch.c:76-330 | Whole runs of any length and interleaving, with donation lists in any order, keep the invariant |
| SchedulerTheorems.ReachableInv | Project 2/src/threads/synch.c:76-330 | Every state reachable from the boot state satisfies the invariant |
| SchedulerTheorems.DonationLists | Project 2/src/threads/synch.c:249-271 | In reachable states a donor of h waits inside lock_acquire for a lock that h holds, is listed once, and is in no other donation list |
| SchedulerTheorems.BasePriorities | Project 2/src/threads/thread.c:793-807 | In reachable states priority is never below the base priority, and a thread that holds no lock has its base priority and no donors |
| SchedulerTheorems.MutualExclusion | Project 2/src/threads/synch.c:249-330 | In reachable states the value of a lock is 0 or 1, it has no holder exactly when the value is 1, and no thread waits for a lock that it holds |
| SchedulerTheorems.NoLostWakeup | Project 2/src/threads/synch.c:76-164 | While a semaphore has waiters its value is at most the number of woken threads that have still to retry, and each of those is ready or running |
| SchedulerTheorems.OnePlace | Project 2/src/threads/thread.c:263-296 | Ready, running, sleeping and blocked threads are respectively in the ready list, on the processor, in the sleep list, and in the list of the one semaphore they wait for |
| SchedulerTheorems.WakesHighest | Project 2/src/threads/synch.c:143-164 | sema_up makes ready a waiter with no waiter of higher priority, whatever permutation the sort leaves |
| SchedulerTheorems.StepCounts | Project 2/src/threads/synch.c:76-164 | One step changes the value of a semaphore by its ups less its completed downs |
| SchedulerTheorems.SemaphoreAccounting | Project 2/src/threads/synch.c:76-164 | Over any run the value is the initial value plus all ups minus all completed downs |
| SchedulerTheorems.DonationRestoresEdges | Project 2/src/threads/thread.c:739-760 | When every edge but the one of the starting thread was in order, an edge is out of order afterwards if and only if it is the one at the depth limit of a chain that is too long; it terminates on cyclic waits |
| SchedulerTheorems.FirstEdgesAreRestored | Project 2/src/threads/thread.c:739-760 | The edges in front of the depth limit are in order afterwards, on cyclic chains too |
| SchedulerTheorems.DonationRestoresAllEdges | Project 2/src/threads/thread.c:739-760 | All edges are in order afterwards if and only if the chain does not go on, past the limit, to a new thread that the donor outranks |
| SchedulerTheorems.DonationStaysOnChain | Project 2/src/threads/thread.c:739-760 | Donation changes only priorities, only upward, only to the donor's priority, and only of threads on the chain |
| SchedulerTheorems.DonationSolve | Project 2/src/threads/thread.c:739-760 | For the current thread and the depth of eight: no priority falls, nothing off the chain changes, the first eight edges are in order, and all edges are exactly under that condition |
| SchedulerTheorems.DonationStopsAfterEight | Project 2/src/threads/thread.c:739-760 | A state that satisfies every invariant and has every edge in order, in which one lock_acquire leaves the ninth edge out of order |
| SchedulerDonors.FirstDonorDecides | Project 2/src/threads/thread.c:793-807 | The priority becomes the highest of base and donors if and only if no donor is above the base or no donor is above the first one |
| SchedulerDonors.FirstDonorIsNotHighest | Project 2/src/threads/thread.c:686-698 | A reachable state in which a lock holder has priority 32 while a thread of priority 33 waits for its lock, because the comparison reads pointers |
| SchedulerOrder.StepOrder | Project 2/src/threads/thread.c:708-731 | A step keeps the ready list sorted if its donation raises no READY thread; from a state in which the highest thread runs it leads to another one if and only if it does not starve a READY thread, or, for sema_up in an interrupt, wakes no higher thread; a tick always does |
| SchedulerOrder.HighestThreadRuns | Project 2/src/threads/thread.c:739-760 | Over every run from the boot state whose donations raise no READY thread the ready list stays sorted and nobody ready outranks the running thread, once a tick has followed every sema_up of an interrupt |
| SchedulerOrder.DonationCanStarve | Project 2/src/threads/thread.c:756 | A run to a state in which all is in order and whose next lock_acquire raises a READY thread to 33 and dispatches one of priority 32 |
| SchedulerSleep.WakesExactlyDue | Project 2/src/devices/timer.c:215-227 | From a list sorted by wake time, the loop wakes all threads that are due and no others, and leaves it sorted |
| SchedulerSleep.RunStaysSorted | Project 2/src/devices/timer.c:102-117 | Every run keeps the sleep list sorted by wake time |
| SchedulerSleep.TickWakesExactlyDue | Project 2/src/devices/timer.c:194-229 | In every reachable state the next tick wakes exactly the sleepers whose time has come |
| SchedulerLaws.ClockStep | Project 2/src/devices/timer.c:195-198 | The clock advances by one with each tick and with no other step |
| SchedulerLaws.SleepsExactly | Project 2/src/devices/timer.c:103-117 | In every run after timer_sleep(n) from a reachable state the thread is blocked and asleep while fewer than n ticks have come, and the n-th tick makes it ready or runs it; for n <= 0 nothing happens |
| SchedulerLaws.SliceStep | Project 2/src/threads/thread.c:554-564 | A step that ends the turn of the running thread starts a new slice, and within a turn exactly the ticks that find another thread ready count |
| SchedulerLaws.TimeSlices | Project 2/src/threads/thread.c:716-726 | After any run within a turn the next tick ends the turn exactly for a higher thread, or for an equal one when four such ticks are used up, and the old thread becomes ready |
| SchedulerLaws.StepClaims | Project 2/src/threads/synch.c:249-330 | What each step does to holders, donation lists and base priorities: a lock goes to the thread that takes it and only lock_release gives it up; a waiter joins the list of the holder in lock_acquire and leaves it exactly when that lock is released; a base priority is what its thread asks for |
| SchedulerLaws.BaseIsAsked | Project 2/src/threads/thread.c:644-652 | Over every run the base priority of a thread is the one that thread_create or thread_set_priority gave it last |
| SchedulerLaws.PriorityIsAsked | Project 2/src/threads/thread.c:674-683 | In every run a thread has at least the priority it asked for last, and exactly that while it holds no lock |
| SchedulerLaws.ChangeTakesEffect | Project 2/src/threads/thread.c:644-669 | After thread_set_priority(p) the thread has priority p, or that of its first donor if that is higher |
| SchedulerLaws.ReleaseReturns | Project 2/src/threads/synch.c:314-330 | lock_release leaves the thread with its base priority or that of its first donor for another lock, whichever is higher |
| SchedulerLaws.AcquireDonates | Project 2/src/threads/synch.c:249-271 | lock_acquire on a held lock leaves the holder at least as high as the waiter, and the first eight edges of the new wait chain in order |
| SchedulerKernel.Kernel.ListInsertOrdered | Project 2/src/lib/kernel/list.c:445-459 | The loop over the list inserts as the ordered-insertion function does |
| SchedulerKernel.Kernel.ListSort | Project 2/src/lib/kernel/list.c:404-440 | The result is a permutation of the list sorted by priority |
| SchedulerKernel.Kernel.PriorityDonationSolve | Project 2/src/threads/thread.c:739-760 | The loop over lock holders does the donation of the theorems above and changes nothing else |
| SchedulerKernel.Kernel.RemoveDonationListWaitingLock | Project 2/src/threads/thread.c:770-784 | Exactly the donors that wait for the released lock are removed, the others keep their order |
| SchedulerKernel.Kernel.PriorityCheckFromDonationList | Project 2/src/threads/thread.c:793-807 | The current thread's priority becomes the larger of its base and that of its first donor; nothing else changes |
| SchedulerKernel.Kernel.Schedule | Project 2/src/threads/thread.c:529-604 | The first ready thread, or the idle thread, is dispatched with a new time slice |
| SchedulerKernel.Kernel.ThreadUnblock | Project 2/src/threads/thread.c:281-296 | The thread becomes ready and is queued by priority |
| SchedulerKernel.Kernel.ThreadYield | Project 2/src/threads/thread.c:362-379 | The running thread is queued by priority, unless idle, and the next is dispatched |
| SchedulerKernel.Kernel.YieldToHighest | Project 2/src/threads/thread.c:708-731 | The processor is given up exactly when the first ready thread has a higher priority |
| SchedulerKernel.Kernel.SemaPass | Project 2/src/threads/synch.c:85-95 | One pass of the retry loop: the value is taken, or the thread is queued and blocks |
| SchedulerKernel.Kernel.SemaDown | Project 2/src/threads/synch.c:76-97 | sema_down up to where it returns or blocks is the step Down of the state machine |
| SchedulerKernel.Kernel.SemaRaise | Project 2/src/threads/synch.c:151-158 | The waiters are sorted, the first becomes ready, and the value grows by one |
| SchedulerKernel.Kernel.SemaUp | Project 2/src/threads/synch.c:144-164 | sema_up is the step Up, for some sorted permutation of the waiters |
| SchedulerKernel.Kernel.LockAcquire | Project 2/src/threads/synch.c:249-271 | lock_acquire up to where it returns or blocks is the step Acquire: registration with the holder, donation, and the first pass of sema_down; the donor enters the list where the pointer words that are compared put it |
| SchedulerKernel.Kernel.LockTryAcquire | Project 2/src/threads/synch.c:280-296 | It succeeds exactly when the lock is free, and is the step TryAcquire |
| SchedulerKernel.Kernel.LockRelease | Project 2/src/threads/synch.c:314-330 | lock_release is the step Release: donors for this lock leave, the priority is recomputed, the lock becomes free and a waiter is woken |
| SchedulerKernel.Kernel.ThreadSetPriority | Project 2/src/threads/thread.c:644-669 | thread_set_priority is the step ChangePriority: new base, donation reconsidered, donation onward, yield |
| SchedulerKernel.Kernel.TimerSleep | Project 2/src/devices/timer.c:103-117 | timer_sleep is the step SleepFor; a time that is not positive does not sleep |
| SchedulerKernel.Kernel.WakeSleepers | Project 2/src/devices/timer.c:215-227 | The loop wakes sleepers from the front of the list while they are due |
| SchedulerKernel.Kernel.TimerInterrupt | Project 2/src/devices/timer.c:195-229 | The timer interrupt is the step TimerTick, with the yield at the end of a time slice |
| Mlfqs.LoadAvgStep | Project 2/src/threads/thread.c:902-914 | The 17.14 recurrence does not overflow, equals its unbounded form, and keeps load_avg between 0 and the number of runnable threads |
| Mlfqs.DecayStep | Project 2/src/threads/thread.c:894-895 | The decay factor is computed without overflow and stays below one by the margin 1/(2n + 1) |
| Mlfqs.RecentCpuStep | Project 2/src/threads/thread.c:888-898 | The recurrence does not overflow and takes recent_cpu, after 100 ticks, back inside its bounds for the start of a second |
| Mlfqs.PriorityStep | Project 2/src/threads/thread.c:863-883 | No intermediate value overflows: the priority is the clamped value of the unbounded formula |
| Mlfqs.PriorityAntitone | Project 2/src/threads/thread.c:863-883 | More recent_cpu or more nice never gives a higher priority, and all priorities are in 0..63 |
| Mlfqs.ReadingIsExact | Project 2/src/threads/thread.c:833-849 | A fixed-point number times 100 is rounded to the nearest integer if and only if 100·x is inside a stated range |
| Mlfqs.LoadAvgIsReadable | Project 2/src/threads/thread.c:833-839 | Every load average within the bound is reported correctly |
| Mlfqs.EverySecondKeeps | Project 2/src/threads/thread.c:920-930 | The recomputation of all threads once a second never divides by zero and restores the bounds |
| Mlfqs.TickKeeps | Project 2/src/devices/timer.c:200-213 | One tick, with whichever of its three parts falls due, keeps the bounds |
| Mlfqs.StepKeeps | Project 2/src/devices/timer.c:200-213 | Ticks, changes of nice, new threads and exits all keep the bounds |
| Mlfqs.RunKeeps | Project 2/src/devices/timer.c:200-213 | Over any run with at most 545 runnable threads and nice in −20..20 the kernel does not panic and load_avg, recent_cpu and priorities keep within bounds that fit 32 bits |
| Mlfqs.StartIsInv | Project 2/src/threads/thread.c:832-930 | The boot state satisfies the bounds for every n |
| MlfqsLaws.TickIs | Project 2/src/devices/timer.c:200-213 | One tick in unbounded arithmetic: the running thread is charged one; once a second load average, recent_cpu and all priorities follow their formulas; every fourth tick the priority of the running thread does; no other priority changes |
| MlfqsLaws.SetNiceIs | Project 2/src/threads/thread.c:812-820 | thread_set_nice stores the value, computes the priority of that thread by the formula, and changes nothing else |
| MlfqsLaws.LagBound | Project 2/src/threads/thread.c:863-883 | A priority computed up to 75 charges ago is at most 19 above the formula and never below it |
| MlfqsLaws.PriorityLags | Project 2/src/devices/timer.c:204-212 | In every run of less than a second after the tick of a new second the priority of each thread that was there is between the formula and 19 more |
| MlfqsLaws.LagIsReached | Project 2/src/devices/timer.c:204-212 | A run of 99 ticks in which a thread keeps priority 63 while the formula falls to 44 |
| MlfqsReadings.RecentCpuMayBeUnreadable | Project 2/src/threads/thread.c:843-849 | In a run of 1400 ticks from the start, with 544 other threads ready, the recent_cpu of the running thread comes to be read wrongly |
| MlfqsKernel.Kernel.IncrementRecentCpu | Project 2/src/threads/thread.c:852-860 | Only the running thread is charged, and not when it is the idle thread |
| MlfqsKernel.Kernel.CalculatePriority | Project 2/src/threads/thread.c:863-883 | The priority of that thread alone is recomputed |
| MlfqsKernel.Kernel.CalculateLoadAvg | Project 2/src/threads/thread.c:902-914 | load_avg follows the recurrence with the ready threads and the running one if it is not idle |
| MlfqsKernel.Kernel.RecalculateAll | Project 2/src/threads/thread.c:920-930 | The walk over all_list recomputes every thread once, except the idle thread |
| MlfqsKernel.Kernel.RecalculateSystem | Project 2/src/devices/timer.c:204-208 | The load average is updated first and all threads with the new value |
| MlfqsKernel.Kernel.TimerInterrupt | Project 2/src/devices/timer.c:195-213 | The handler is one tick of the state machine, keeps its bounds, and does exactly what `MlfqsLaws.TickIs` says of a tick |
| FsLayout.InodeRoundTrip | Project 2/src/filesys/inode.c:15-21 | An inode is recovered from the sector it is stored in |
| FsLayout.EntryRoundTrip | Project 2/src/filesys/directory.c:17-22 | A directory entry is recovered from its 20 bytes |
| FsLayout.CopyStringRoundTrip | Project 2/src/filesys/directory.c:171-175 | A name stored by strlcpy in a field that has room for it compares equal to itself |
| FsLayout.MapRoundTrip | Project 1a/src/lib/kernel/bitmap.c:341-361 | The free map is recovered from the bytes of its file, for any number of sectors |
| FsDevice.FileAfterWrite | Project 2/src/filesys/inode.c:257-318 | A write of bytes inside a file replaces that range of its contents and no other byte |
| FsDevice.OverwriteTwice | Project 2/src/filesys/inode.c:257-318 | Adjacent chunks written in turn are one write of the whole |
| FsDevice.Device.InodeReadAt | Project 2/src/filesys/inode.c:200-250 | The chunk loop reads exactly min(size, length − offset) bytes, or without a bounce buffer exactly those before the first partial sector, and always the bytes of the file at that offset; it terminates |
| FsDevice.Device.InodeWriteAt | Project 2/src/filesys/inode.c:257-318 | The chunk loop writes exactly that many bytes, none when writes are denied, and leaves every other byte of every sector as it was |
| FsLemmas.WriteContents | Project 2/src/filesys/inode.c:257-318 | Writing to one live file changes no other live file and no inode |
| FsLemmas.MapChangeKeeps | Project 2/src/filesys/free-map.c:28-50 | Changing bits of sectors that no live file owns, and writing any part of the map to its file, keeps storage consistent |
| FsLemmas.FileWriteKeeps | Project 2/src/filesys/inode.c:257-318 | A write keeps names, live files and the contents of all other files |
| FsLemmas.NewInodeIsEmptyFile | Project 2/src/filesys/inode.c:72-106 | After the device writes of inode_create the sector holds an inode whose contents are all zeros |
| FsLemmas.AddedNames | Project 2/src/filesys/directory.c:142-179 | Storing an entry in a free slot adds exactly one name and keeps names unique |
| FsLemmas.AddEntryKeeps | Project 2/src/filesys/directory.c:142-179 | Naming a new inode makes its file live and changes no other file |
| FsLemmas.RemovedNames | Project 2/src/filesys/directory.c:185-216 | Erasing a slot removes exactly one name |
| FsLemmas.RemoveEntryKeeps | Project 2/src/filesys/directory.c:185-216 | Erasing the entry of an open file keeps it live with its contents |
| FsTables.OpenNewKeeps | Project 2/src/filesys/inode.c:112-142 | Opening a sector that is not open keeps one in-memory inode per sector and exact counts |
| FsTables.ReopenKeeps | Project 2/src/filesys/inode.c:145-151 | A further reference keeps open_cnt equal to the references there are |
| FsTables.CloseOneKeeps | Project 2/src/filesys/inode.c:163-186 | Giving up a reference that is not the last keeps the counts exact |
| FsTables.CloseLastKeeps | Project 2/src/filesys/inode.c:163-186 | The last close keeps the tables consistent and makes a removed file, and only a removed file, no longer live |
| FsTables.AttachKeeps | Project 2/src/filesys/file.c:18-34 | A new file takes over one reference |
| FsTables.DetachKeeps | Project 2/src/filesys/file.c:46-54 | A file that allows writes gives its reference back |
| FsTables.SetDenyKeeps | Project 2/src/filesys/inode.c:322-338 | deny_write_cnt stays the number of files that deny writes, so the assertions of both functions hold |
| FsTables.SetPosKeeps | Project 2/src/filesys/file.c:154-159 | Moving a position disturbs nothing else |
| FsEffects.MarkKeeps | Project 2/src/filesys/free-map.c:28-41 | Marking free sectors disturbs no file, whether or not the map can be saved |
| FsEffects.ClearKeeps | Project 2/src/filesys/free-map.c:45-50 | Clearing sectors that nobody owns disturbs no file, whether or not the map can be saved |
| FsEffects.AddKeepsNames | Project 2/src/filesys/directory.c:155-175 | Writing an entry keeps names unique and every name on its file if and only if its name is new and its slot was free |
| FsModel.AddedModel | Project 2/src/filesys/filesys.c:46-59 | Adding a file is the abstract creation of a new name with zero bytes |
| FsModel.AcceptsWithMemory | Project 2/src/filesys/directory.c:142-179 | With memory for its reads and its write dir_add takes exactly the names that are valid and new while there is a free slot, and does no harm |
| FsModel.ShortReadHarms | Project 2/src/filesys/directory.c:92-112 | In every directory with a free slot, any name in use is added once more when lookup has no memory for its first read |
| FsModel.VisibleWithMemory | Project 2/src/filesys/directory.c:92-112 | With memory lookup finds exactly the names in use |
| FsModel.RemovedModel | Project 2/src/filesys/filesys.c:84-91 | Unbinding a name is the abstract removal, where contents stay while the file is open |
| FsModel.WriteModel | Project 2/src/filesys/inode.c:257-318 | A device write is the abstract replacement of a range of one file |
| FsModel.AttachModel | Project 2/src/filesys/file.c:18-34 | Attaching a file to a reference is the abstract opening: one more handle on that file, and nothing else changes |
| FsModel.ReopenedModel | Project 2/src/filesys/inode.c:145-151 | Taking a reference to an inode is invisible in the model |
| FsModel.OpenIffHandle | Project 2/src/filesys/inode.c:112-142 | A file is in the list of open inodes exactly when there is a handle on it |
| FsModel.LastReference | Project 2/src/filesys/inode.c:163-186 | open_cnt is 1 exactly when no handle is left, and the removed flag is set exactly when no name is left |
| FsModel.ClosedModel | Project 2/src/filesys/inode.c:163-186 | inode_close drops the contents, and frees exactly the sectors of the file, if neither a name nor a handle is left, and otherwise changes nothing |
| FsModel.DeniedFacts | Project 2/src/filesys/inode.c:322-338 | Writes to an inode are refused exactly when some handle denies them |
| FsModel.AccountedAdded | Project 2/src/filesys/filesys.c:46-59 | Creation loses no sector and moves no file |
| FsModel.AccountedFreed | Project 2/src/filesys/inode.c:163-186 | Freeing exactly the sectors of a dead file loses no sector |
| FsModel.ReleaseUndoes | Project 2/src/filesys/filesys.c:54-55 | The release of the inode sector in filesys_create restores the free map, except for the sectors meant for the contents |
| FsModel.LeakShows | Project 2/src/filesys/filesys.c:48-55 | Turning down a file loses sectors if and only if the file is not empty |
| FsFormat.EmptyDirectory | Project 2/src/filesys/directory.c:26-30 | A directory file of zeros is a valid directory without names |
| FsFormat.PlanIs | Project 2/src/filesys/filesys.c:95-103 | Formatting succeeds exactly when the disk has room for the free-map file and the root directory |
| FsFormat.FormattedDisk | Project 2/src/filesys/filesys.c:95-103 | The formatted disk holds the two system files, disjoint, with the map of exactly their sectors |
| FsFormat.FormatIsEmpty | Project 2/src/filesys/filesys.c:95-103 | After formatting and opening the free map the system is consistent, its model is empty, and every marked sector belongs to a file |
| FsClass.FileSystem.constructor | Project 2/src/filesys/free-map.c:13-20 | At boot only the two sectors of the system inodes are marked and nothing is open |
| FsClass.FileSystem.WriteFreeMap | Project 2/src/filesys/free-map.c:31-37 | The file gets the map in memory, or without a bounce buffer its whole sectors only; it succeeds exactly when nothing is missing |
| FsClass.FileSystem.FreeMapAllocate | Project 2/src/filesys/free-map.c:28-41 | It returns the first run of free sectors, which no live file owns, marked on disk and in memory; it fails exactly when there is no such run or the map cannot be saved, and then no sector stays marked |
| FsClass.FileSystem.FreeMapRelease | Project 2/src/filesys/free-map.c:45-50 | Exactly the given sectors become free in memory, and on disk exactly when the map can be saved |
| FsClass.FileSystem.BitmapRead | Project 2/src/filesys/free-map.c:54-61 | It fails exactly for lack of a bounce buffer; otherwise it gives the free map of the running system if the last save was complete |
| FsClass.FileSystem.Mount | Project 2/src/filesys/filesys.c:18-31 | Starting on the disk of an earlier run, without formatting, succeeds exactly with memory for the file and its buffer, and then reads the free map of that run and has nothing else open |
| FsClass.FileSystem.InodeCreate | Project 2/src/filesys/inode.c:73-106 | It succeeds exactly when there is memory, a large enough run of sectors and the map can be saved: a new inode with a free extent of zeros, disturbing no file; on failure no sector stays marked |
| FsClass.FileSystem.WriteInode | Project 2/src/filesys/inode.c:92-101 | The loop writes the inode and zero sectors and nothing else |
| FsClass.FileSystem.InodeOpen | Project 2/src/filesys/inode.c:112-142 | The open inode of the sector is shared if there is one, otherwise a new one is read from disk; it fails only for lack of memory |
| FsClass.FileSystem.FindOpen | Project 2/src/filesys/inode.c:118-127 | The search of the list finds the inode of a sector exactly when it is open |
| FsClass.FileSystem.DropReference | Project 2/src/filesys/inode.c:170-174 | One reference fewer; the last one takes the inode out of the list |
| FsClass.FileSystem.InodeClose | Project 2/src/filesys/inode.c:164-186 | The reference is given up; the last close of a removed inode frees its inode sector and its extent, and other inodes are untouched |
| FsClass.FileSystem.ReadEntry | Project 2/src/filesys/directory.c:101-103 | Reading slot j gives entry j of the directory, or nothing at its end or without a bounce buffer |
| FsClass.FileSystem.Lookup | Project 2/src/filesys/directory.c:92-112 | It finds a name exactly when it is in use in front of any slot that cannot be read |
| FsClass.FileSystem.DirLookup | Project 2/src/filesys/directory.c:119-133 | It opens the inode that the name stands for; it fails only for a name that lookup does not find, or for lack of memory |
| FsClass.FileSystem.WriteEntry | Project 2/src/filesys/directory.c:171-175 | Slot j is replaced, exactly when it lies inside the directory file and there is a bounce buffer |
| FsClass.FileSystem.FreeSlot | Project 2/src/filesys/directory.c:166-169 | The first slot that is free or cannot be read, or the end of the directory |
| FsClass.FileSystem.DirAdd | Project 2/src/filesys/directory.c:142-179 | It writes an entry exactly when the name is valid, lookup does not find it, a slot is left and there is a bounce buffer; the name is then added with all others kept, except exactly when lookup missed a name in use or the slot was in use, and then the names are not kept |
| FsClass.FileSystem.Unbind | Project 2/src/filesys/directory.c:204-211 | Erasing the entry and marking the inode removes the name and keeps the file; if the entry cannot be written nothing changes |
| FsClass.FileSystem.DirRemove | Project 2/src/filesys/directory.c:185-216 | It succeeds, given an inode, exactly when lookup finds the name and the entry can be written; the name is gone and the file lives on while it is open; on failure nothing visible changed |
| FsClass.FileSystem.DirOpenRoot | Project 2/src/filesys/directory.c:54-58 | The root directory is opened, failing only for lack of memory, with no visible change |
| FsClass.FileSystem.DirClose | Project 2/src/filesys/directory.c:69-77 | Closing the root directory frees nothing, whatever the directory holds |
| FsClass.FileSystem.CreateAt | Project 2/src/filesys/filesys.c:49-53 | With an inode sector at hand, the exact condition under which a name and its file appear together, the exact condition under which that harms other names, and what a failure leaves marked |
| FsClass.FileSystem.CreateIn | Project 2/src/filesys/filesys.c:49-56 | The same with allocation and release of the inode sector |
| FsClass.FileSystem.FilesysCreate | Project 2/src/filesys/filesys.c:46-59 | It succeeds exactly when memory and space let it get to dir_add and that takes the name; a success is the abstract creation unless dir_add did harm; a failure changes no name, content or handle, and changes the free map if and only if it got as far as dir_add and the file is not empty |
| FsClass.FileSystem.FindInode | Project 2/src/filesys/filesys.c:67-76 | The inode of the name, with the root directory closed again |
| FsClass.FileSystem.FilesysOpen | Project 2/src/filesys/filesys.c:67-77 | Given memory for inodes it succeeds exactly for a name that lookup finds, and is then the abstract opening; a failed call changes nothing |
| FsClass.FileSystem.FilesysRemove | Project 2/src/filesys/filesys.c:84-91 | Given memory for inodes it succeeds exactly for a name that lookup finds and an entry that can be written, and is then the abstract removal, which frees the sectors at once if the file is not open |
| FsClass.FileSystem.FileOpen | Project 2/src/filesys/file.c:18-34 | The file takes over the caller's reference; without memory the reference is given up |
| FsClass.FileSystem.FileReopen | Project 2/src/filesys/file.c:39-42 | A second handle on the same file at position 0 |
| FsClass.FileSystem.TakeReference | Project 2/src/filesys/file.c:46-54 | The handle disappears and nothing else visible changes |
| FsClass.FileSystem.FileClose | Project 2/src/filesys/file.c:46-54 | The abstract close, and the sectors of a file without name and handle are freed |
| FsClass.FileSystem.FileRead | Project 2/src/filesys/file.c:69-74 | The bytes of the abstract file at the handle's position, which then moves past them |
| FsClass.FileSystem.FileReadAt | Project 2/src/filesys/file.c:82-85 | The bytes of the abstract file at an offset; nothing changes |
| FsClass.FileSystem.FileWrite | Project 2/src/filesys/file.c:95-100 | The abstract write at the handle's position, which then moves; the file never grows |
| FsClass.FileSystem.FileWriteAt | Project 2/src/filesys/file.c:110-114 | The abstract write at an offset, with the exact number of bytes, none if writes are denied |
| FsClass.FileSystem.FileDenyWrite | Project 2/src/filesys/file.c:119-127 | The abstract denial on this handle, once; the assertion of inode_deny_write holds |
| FsClass.FileSystem.FileAllowWrite | Project 2/src/filesys/file.c:133-141 | The abstract permission on this handle; the assertions of inode_allow_write hold |
| FsClass.FileSystem.FileLength | Project 2/src/filesys/file.c:144-149 | The length of the abstract contents |
| FsClass.FileSystem.FileSeek | Project 2/src/filesys/file.c:154-159 | Only the position of this handle changes |
| FsClass.FileSystem.Format | Project 2/src/filesys/filesys.c:95-103 | It succeeds exactly with memory, on disks with room, when the map can be saved, and leaves the empty model with no marked sector unaccounted for |
| FsClass.FileSystem.CreateMapFile | Project 2/src/filesys/free-map.c:73-77 | The free-map file is placed in the first run that holds it |
| FsClass.FileSystem.SaveMap | Project 2/src/filesys/free-map.c:79-84 | The extent of the map file holds the map, as far as there is memory to write it, and no other byte changed |
| FsTheorems.ModelIsConsistent | Project 2/src/filesys/directory.c:91-216 | In every consistent state different names stand for different files, names have 1 to 14 characters, and contents belong exactly to files with a name or a handle |
| FsTheorems.ExtentsAreDisjoint | Project 2/src/filesys/inode.c:72-186 | Inode sectors and extents of live files are marked in the free map and pairwise disjoint |
| FsTheorems.StepAccounts | Project 2/src/filesys/filesys.c:45-91 | An operation keeps the set of marked sectors that belong to nobody if and only if it is not a creation that dir_add turned down |
| FsTheorems.NothingIsLost | Project 2/src/filesys/filesys.c:45-91 | Over whole runs without refused creations no sector is lost |
| FsTheorems.FreeMapIsExact | Project 2/src/filesys/free-map.c:27-50 | After such a run, if nothing was spare at the start, a sector is marked if and only if a live file owns it |
| FsTheorems.ExactAfterFormat | Project 2/src/filesys/filesys.c:95-103 | In a run from a freshly formatted device without such creations a sector is marked if and only if a live file owns it |
| FsTheorems.EmptyNameLeaks | Project 2/src/filesys/filesys.c:48-55 | On a freshly formatted device of eight sectors a creation of one byte under the empty name gets as far as dir_add and is turned down there |
| FsTheorems.StepKeepsHeldFile | Project 2/src/filesys/inode.c:163-195 | An operation that does not write to a file keeps the contents of that file while a handle on it stays open |
| FsTheorems.HeldFileIsKept | Project 2/src/filesys/inode.c:163-195 | Over whole runs an open file keeps its contents until its last close, removed or not |
| FsTheorems.SameFreeMap | Project 2/src/filesys/free-map.c:27-50 | With the same live files and the same sectors spare the free map is the same |
| FsTheorems.CreateRemove | Project 2/src/filesys/filesys.c:45-91 | Create and remove restore the model and the free map |
| FsTheorems.CreateOpenRemoveClose | Project 2/src/filesys/filesys.c:45-91 | Create, open, remove and last close restore the model and the free map |
| FsStreams.ReadsAreAPrefix | Project 2/src/filesys/file.c:69-74 | After a handle was opened by name or by file_reopen, whatever else happens, the bytes it reads, joined, are the first bytes of the file; with memory, as many as were asked for or as there are |
| FsStreams.FirstRead | Project 2/src/filesys/file.c:18-34 | The first read after filesys_open or file_reopen returns the first min(n, length) bytes of the file |
| FsStreams.SeekThenRead | Project 2/src/filesys/file.c:154-159 | A read after file_seek returns the bytes of the file from that position on |
| FsStreams.ReadAtIs | Project 2/src/filesys/file.c:82-86 | file_read_at with memory returns the part of the file that lies in the request |
| FsStreams.WriteAtIs | Project 2/src/filesys/file.c:110-115 | file_write_at replaces exactly the range that it wrote of that file, with memory and permission the part of the request inside the file, and no byte of another file |
| FsStreams.WritesReplaceAPrefix | Project 2/src/filesys/file.c:95-100 | The bytes that an opened handle writes, joined, replace the first bytes of the file and leave the rest; with memory and permission, as many as were given or as there are |
| FsStreams.ReadAfterWrite | Project 2/src/filesys/file.c:69-100 | What was written through one handle is what a new handle, opened by the same name, reads |
| FsStreams.NameStaysOn | Project 2/src/filesys/directory.c:91-216 | A name stays on its file over every run in which it is not removed |
| FsStreams.CreatedReadsZeros | Project 2/src/filesys/inode.c:72-106 | A file created with size bytes has that length and reads as zeros |
| FsStreams.DeniedIsUnwritten | Project 2/src/filesys/inode.c:322-338 | From file_deny_write until that handle allows writes or is closed nothing is written to its file through any handle |
| FsStreams.AllowedAgain | Project 2/src/filesys/inode.c:331-338 | After file_allow_write writes are refused exactly if another handle on the file still denies them |
| FsMount.MountKeeps | Project 2/src/filesys/filesys.c:18-39 | After a shutdown with the free map saved the next start is in a consistent state with the same names and the same contents of all named files, and no handles |
| FsMount.RemovedButOpenIsLost | Project 2/src/filesys/filesys.c:36-39 | A sector belongs to nobody after the next start if and only if it did before or belonged to a file that was open without a name |
| Bitmaps.ScanFree | Project 1a/src/lib/kernel/bitmap.c:297-311 | The least position with cnt clear bits, or none exactly when there is none |
| Bitmaps.SetBit | Project 1a/src/lib/kernel/bitmap.c:157-167 | Or with a mask sets one bit of an element and no other |
| Bitmaps.ClearBit | Project 1a/src/lib/kernel/bitmap.c:170-180 | And with an inverted mask clears one bit and no other |
| Bitmaps.FlipBit | Project 1a/src/lib/kernel/bitmap.c:185-195 | Exclusive or with a mask flips one bit and no other |
| Bitmaps.OneElement | Project 1a/src/lib/kernel/bitmap.c:36-47 | Changing one bit of one element is changing one position of the bitmap, for every length |
| Bitmaps.Bitmap.constructor | Project 1a/src/lib/kernel/bitmap.c:79-94 | A new bitmap has cnt clear bits |
| Bitmaps.Bitmap.Set | Project 1a/src/lib/kernel/bitmap.c:146-154 | One position of the sequence of bits is replaced |
| Bitmaps.Bitmap.Mark | Project 1a/src/lib/kernel/bitmap.c:158-167 | One position becomes set and the other bits of its word stay |
| Bitmaps.Bitmap.Reset | Project 1a/src/lib/kernel/bitmap.c:171-180 | One position becomes clear and the other bits of its word stay |
| Bitmaps.Bitmap.Flip | Project 1a/src/lib/kernel/bitmap.c:186-195 | One position is inverted and the other bits of its word stay |
| Bitmaps.Bitmap.Test | Project 1a/src/lib/kernel/bitmap.c:198-204 | The bit at a position of the packed words |
| Bitmaps.Bitmap.SetAll | Project 1a/src/lib/kernel/bitmap.c:210-215 | All positions take the value |
| Bitmaps.Bitmap.SetMultiple | Project 1a/src/lib/kernel/bitmap.c:219-229 | Exactly the range takes the value |
| Bitmaps.Bitmap.Count | Project 1a/src/lib/kernel/bitmap.c:234-247 | The size of the set of positions in the range with the value |
| Bitmaps.Bitmap.Contains | Project 1a/src/lib/kernel/bitmap.c:252-264 | Whether not all bits of the range have the opposite value |
| Bitmaps.Bitmap.Scan | Project 1a/src/lib/kernel/bitmap.c:297-311 | The first group of cnt equal bits from a position on, or none exactly when there is none |
| Bitmaps.Bitmap.ScanAndFlip | Project 1a/src/lib/kernel/bitmap.c:321-327 | The same, and exactly that group is inverted |
| Heap.BlocksFit | Project 2/src/threads/malloc.c:76-81 | Header and blocks of every descriptor fit in a page |
| Heap.BlockToArenaRoundTrip | Project 2/src/threads/malloc.c:268-294 | Arena and number of a block are found again from its address, and the assertions of block_to_arena hold |
| Heap.BlockInRun | Project 2/src/threads/malloc.c:268-294 | A block lies inside the pages of its arena and behind its header |
| Heap.BlocksAreDisjoint | Project 2/src/threads/malloc.c:268-294 | Any two blocks, free or in use, of the same or different arenas occupy disjoint bytes |
| HeapLemmas.TakeKeeps | Project 2/src/threads/malloc.c:149-151 | Taking the first free block keeps the heap invariant, and the block was not in use |
| HeapLemmas.AddKeeps | Project 2/src/threads/malloc.c:125-146 | A new arena on a free page keeps the invariant; its first block heads the free list |
| HeapLemmas.BigPagesFit | Project 2/src/threads/malloc.c:109 | The pages requested hold the block if and only if the size is at most 0xFFFFFFF4 |
| HeapLemmas.BigPagesCanBeTooFew | Project 2/src/threads/malloc.c:109 | The largest size gets one page |
| HeapLemmas.AddBigKeeps | Project 2/src/threads/malloc.c:105-120 | A big block on a free run of pages keeps the invariant and is apart from all others |
| HeapLemmas.GiveKeeps | Project 2/src/threads/malloc.c:233-242 | Putting a live block on its free list keeps the invariant, except that its arena may now be wholly free |
| HeapLemmas.IdleIsAllFree | Project 2/src/threads/malloc.c:242-246 | When free_cnt reaches the number of blocks, all blocks of the arena are on the list and none is live, so the assertion holds |
| HeapLemmas.DropKeeps | Project 2/src/threads/malloc.c:242-253 | Releasing a wholly free arena restores the invariant |
| HeapLemmas.DropBigKeeps | Project 2/src/threads/malloc.c:257-262 | Releasing a big block keeps the invariant, and all its pages were marked |
| HeapLemmas.FreeListsAreExact | Project 2/src/threads/malloc.c:71-294 | Each free list holds exactly the blocks of its descriptor that are not live, without repetition; free_cnt counts them, and no arena is wholly free |
| HeapClass.MallocInit | Project 2/src/threads/malloc.c:72-85 | The loop makes the seven descriptors of 16 to 1024 bytes |
| HeapClass.FreeUndoesMalloc | Project 2/src/threads/malloc.c:90-264 | free after malloc restores pages, arenas and free lists exactly, whichever branch each of them takes |
| HeapClass.AllocationUntouched | Project 2/src/threads/malloc.c:90-154 | An allocation moves no live block and changes no byte of one |
| HeapClass.CallocMissesWrap | Project 2/src/threads/malloc.c:165-167 | A product that wraps around to a smaller one and passes the check |
| HeapClass.CallocAsksForEnough | Project 2/src/threads/malloc.c:165-167 | Past the check, enough is asked for if and only if the product fits 32 bits |
| HeapClass.TooLargeGetsOnePage | Project 2/src/threads/malloc.c:105-120 | A block for more than 0xFFFFFFF4 bytes has 4084 |
| HeapClass.Allocator.constructor | Project 2/src/threads/palloc.c:153-170 | A pool whose pages are all free satisfies the heap invariant |
| HeapClass.Allocator.PallocGetMultiple | Project 2/src/threads/palloc.c:71-101 | The first free run of pages, marked and zeroed on request; it fails exactly when there is none |
| HeapClass.Allocator.PallocFreeMultiple | Project 2/src/threads/palloc.c:118-142 | Exactly these pages become free and are filled with 0xcc |
| HeapClass.Allocator.FindDesc | Project 2/src/threads/malloc.c:102-104 | The smallest block size that holds the request |
| HeapClass.Allocator.NewArena | Project 2/src/threads/malloc.c:137-145 | The loop puts every block of the new arena on the list |
| HeapClass.Allocator.TakeBlock | Project 2/src/threads/malloc.c:149-151 | The first free block leaves the list and becomes live |
| HeapClass.Allocator.Malloc | Project 2/src/threads/malloc.c:90-154 | It fails exactly when the request is 0 or neither block nor pages are left, changing nothing; otherwise a block not in use, large enough up to 0xFFFFFFF4, with the invariant kept and no byte changed |
| HeapClass.Allocator.Calloc | Project 2/src/threads/malloc.c:159-175 | The exact condition of failure; up to a wrapped product of 0xFFFFFFF4 a block of zeros of that size, with the heap in order and all other blocks untouched |
| HeapClass.Allocator.Realloc | Project 2/src/threads/malloc.c:195-214 | If the copy fits, the heap stays in order, the new block holds the first min(old, new) bytes of the old and all other blocks are untouched; on failure the old block stays |
| HeapClass.Allocator.MoveBlock | Project 2/src/threads/malloc.c:207-210 | A copy that stays inside the new block, and the release of the old one, carry the bytes over and keep the heap in order |
| HeapClass.FitIs | Project 2/src/threads/malloc.c:205-209 | For the block that malloc returns, the copy of min(old, new) bytes stays inside it if and only if the request is at most 0xFFFFFFF4 or the old block has at most 4084 bytes |
| HeapClass.ReallocOverruns | Project 2/src/threads/malloc.c:195-214 | A heap in order in which a request for 0xFFFFFFFF bytes gets one page and the copy runs on over the header of the arena behind it |
| HeapClass.Allocator.Free | Project 2/src/threads/malloc.c:219-264 | The invariant is kept, exactly that block is no longer live, all other blocks keep their bytes, and a null argument does nothing |
| HeapClass.Allocator.FreeSmall | Project 2/src/threads/malloc.c:227-256 | The block returns to its list, or its wholly free arena returns its page |
| HeapClass.Allocator.FreeBig | Project 2/src/threads/malloc.c:257-262 | The pages of the big block become free |
| HeapClass.Allocator.GiveBlock | Project 2/src/threads/malloc.c:239-242 | The block heads its free list and is counted |
| HeapClass.Allocator.RemoveBlocks | Project 2/src/threads/malloc.c:247-251 | Exactly the blocks of the arena leave the list |
| HeapClass.Allocator.DropArena | Project 2/src/threads/malloc.c:242-253 | The page of a wholly free arena is released |
| PowerOfTwo.FloorIsPower | Project 1a/src/lib/kernel/hash.c:337-340 | The largest power of two up to x, which is x exactly for powers of two |
| PowerOfTwo.TurnOffKeepsFloor | Project 1a/src/lib/kernel/hash.c:329-340 | x & (x − 1) is smaller and keeps the highest bit, and is zero exactly for powers of two |
| PowerOfTwo.MaskIsRemainder | Project 1a/src/lib/kernel/hash.c:306-310 | Masking with a power of two less one is the remainder, so a bucket number is in range |
| PowerOfTwo.BucketCount | Project 1a/src/lib/kernel/hash.c:368-372 | A power of two, at least 4, with fewer than four elements and, above the minimum, at least two per bucket |
| HashTable.OnlyInBucket | Project 1a/src/lib/kernel/hash.c:306-326 | An element equal to e can only be in the bucket of e, so searching one bucket is searching the table |
| HashTable.InsertKeeps | Project 1a/src/lib/kernel/hash.c:416-421 | Pushing an element that has no equal keeps the table invariant and adds exactly that element |
| HashTable.DeleteKeeps | Project 1a/src/lib/kernel/hash.c:425-429 | Removing a stored element keeps the invariant and removes exactly it |
| HashTable.MoveOne | Project 1a/src/lib/kernel/hash.c:404-408 | Moving one element to its new bucket loses and duplicates nothing |
| HashTable.FlatAt | Project 1a/src/lib/kernel/hash.c:200-235 | The position in the order of iteration of element j of bucket b |
| HashTable.EachOnce | Project 1a/src/lib/kernel/hash.c:200-235 | The order of iteration meets every element exactly once and nothing else |
| HashTable.Table.constructor | Project 1a/src/lib/kernel/hash.c:25-42 | An empty table with four buckets |
| HashTable.Table.Clear | Project 1a/src/lib/kernel/hash.c:54-74 | No elements are left and the buckets stay |
| HashTable.Table.FindElem | Project 1a/src/lib/kernel/hash.c:315-326 | An equal element of the bucket, or none exactly when there is none |
| HashTable.Table.Search | Project 1a/src/lib/kernel/hash.c:306-326 | An equal element of the whole table, or none exactly when there is none |
| HashTable.Table.Find | Project 1a/src/lib/kernel/hash.c:132-135 | The same as the public operation |
| HashTable.Table.Insert | Project 1a/src/lib/kernel/hash.c:99-110 | The set gains e exactly when it has no equal, whether or not rehashing finds memory; with memory the load is below four |
| HashTable.Table.Replace | Project 1a/src/lib/kernel/hash.c:115-127 | e takes the place of its equal if there is one |
| HashTable.Table.Delete | Project 1a/src/lib/kernel/hash.c:145-154 | The equal element leaves, or nothing changes exactly when there is none |
| HashTable.Table.Rehash | Project 1a/src/lib/kernel/hash.c:352-413 | Elements and their number stay, whether or not memory is found; with memory the load is below four per bucket |
| HashTable.Table.MoveAll | Project 1a/src/lib/kernel/hash.c:395-410 | The nested loops place every element in its bucket and keep the collection |
| HashTable.Table.Apply | Project 1a/src/lib/kernel/hash.c:163-180 | The action is called on the elements in the order of iteration |
| HashTable.Cursor.constructor | Project 1a/src/lib/kernel/hash.c:200-208 | The iterator starts before the first element |
| HashTable.Cursor.Next | Project 1a/src/lib/kernel/hash.c:219-235 | It advances to the next element in the order of iteration, and ends exactly after the last |
| Sorting.SiftDown | Project 2/src/lib/stdlib.c:105-121 | Exchanging a node with its largest child moves the only place where the heap may be broken down to that child |
| Sorting.LargestOfThree | Project 2/src/lib/stdlib.c:105-116 | The chosen index is that of the largest of a node and its children, with the node kept on ties |
| Sorting.RootIsLargest | Project 2/src/lib/stdlib.c:97-123 | The root of a heap is at least every element |
| Sorting.Heapify | Project 2/src/lib/stdlib.c:97-123 | It restores the heap from i on, permutes only the heap, and terminates |
| Sorting.TailGrows | Project 2/src/lib/stdlib.c:147-151 | Moving the root to the end extends a sorted tail of largest elements |
| Sorting.BuildHeap | Project 2/src/lib/stdlib.c:143-144 | The first loop makes a heap of the whole array |
| Sorting.Sort | Project 2/src/lib/stdlib.c:132-152 | For every total preorder and every array the result is a sorted permutation |
| Sorting.BinarySearch | Project 2/src/lib/stdlib.c:185-207 | In a sorted array a match is found if and only if there is one |
| Pagedir.AddressParts | Project 2/src/threads/pte.h:32-39 | Directory index, table index and offset determine the address, and user addresses are those with a user page number |
| Pagedir.PutFlag | Project 2/src/threads/pte.h:61-68 | Changing one flag changes no other flag and not the frame |
| Pagedir.PdeCreated | Project 2/src/threads/pte.h:71-74 | The directory entry is present and leads back to the table |
| Pagedir.PteCreated | Project 2/src/threads/pte.h:87-98 | The entry leads back to the frame, with exactly the flags present, user and, on request, writable |
| Pagedir.OnlyMapping | Project 2/src/userprog/pagedir.c:99-157 | Storing one entry changes the map from pages to frames at that page only |
| Pagedir.StoredIsOnly | Project 2/src/userprog/pagedir.c:57-86 | A store through lookup_page changes the entry of one page only; distinct pages never share an entry |
| Pagedir.NewTableMapsNothing | Project 2/src/userprog/pagedir.c:57-86 | Adding a page table keeps the directory valid and changes no mapping |
| Pagedir.FreedOnce | Project 2/src/userprog/pagedir.c:28-48 | pagedir_destroy frees no page twice if and only if every frame is mapped once and is neither a table nor the directory |
| Pagedir.FramesAreNew | Project 2/src/userprog/pagedir.c:99-119 | Mapping a page keeps one owner for every page if and only if the frame and a new table are not in use yet and differ |
| Pagedir.KernelTablesStay | Project 2/src/userprog/pagedir.c:28-48 | Nothing that is freed is a page table of the kernel, provided that the directory and the mapped frames are none |
| Pagedir.EntrySparesKernel | Project 2/src/userprog/pagedir.c:99-157 | Storing one entry keeps that so if and only if the entry does not map a page table of the kernel |
| Pagedir.PageDirectory.constructor | Project 2/src/userprog/pagedir.c:17-23 | A new directory maps no user page and shares the kernel part |
| Pagedir.PageDirectory.LookupPage | Project 2/src/userprog/pagedir.c:57-86 | It finds or makes the page table of the page; no entry of any page and no kernel entry changes |
| Pagedir.PageDirectory.SetPage | Project 2/src/userprog/pagedir.c:99-119 | Exactly this page becomes mapped; it fails exactly when a table is needed and there is no memory; every page still has one owner if and only if that was so and the frame, and the new table, had none |
| Pagedir.PageDirectory.GetPage | Project 2/src/userprog/pagedir.c:126-137 | The frame of the mapping with the offset, or none exactly when the page is not mapped |
| Pagedir.PageDirectory.ClearPage | Project 2/src/userprog/pagedir.c:144-157 | Exactly this page becomes unmapped |
| Pagedir.PageDirectory.IsDirty | Project 2/src/userprog/pagedir.c:164-168 | The dirty flag of the entry, false without a page table |
| Pagedir.PageDirectory.SetDirty | Project 2/src/userprog/pagedir.c:173-186 | Only the dirty flag of this page changes |
| Pagedir.PageDirectory.IsAccessed | Project 2/src/userprog/pagedir.c:193-197 | The accessed flag of the entry, false without a page table |
| Pagedir.PageDirectory.SetAccessed | Project 2/src/userprog/pagedir.c:202-215 | Only the accessed flag of this page changes |
| Pagedir.PageDirectory.Destroy | Project 2/src/userprog/pagedir.c:28-48 | What is freed is every mapped user frame, every user page table and the directory, and nothing else; nothing is freed twice if and only if every page has one owner |
| Pagedir.PageDirectory.FreeTable | Project 2/src/userprog/pagedir.c:35-46 | The inner loop frees the mapped frames of one table and then the table |
| Stdio.FormattedLength | Project 2/src/lib/stdio.c:526-546 | A conversion emits its content and once the missing width, or twice with zero padding and left alignment both set; so it emits exactly max(width, content) characters if and only if not both are set or the content fills the width |
| Stdio.WidthIsKept | Project 2/src/lib/stdio.c:371-416 | The length is the larger of the magnitude of the width and of the length without a width if and only if it is not a negative width with the zero flag, no minus flag and no precision, or the content fills it |
| Stdio.PaddedTwice | Project 2/src/lib/stdio.c:526-546 | The eight characters that `%0*d` makes of 42 with a width of −5 |
| Stdio.DigitsLength | Project 2/src/lib/stdio.c:504-513 | A value below 8^k needs at most 2k characters in every base, commas included |
| Stdio.AtMost44 | Project 2/src/lib/stdio.c:475-513 | The digits and commas of any 64-bit value leave room in the 64-byte buffer |
| Stdio.DigitsDenote | Project 2/src/lib/stdio.c:504-513 | The digits denote the value they were made from, in every base |
| Stdio.GroupingAddsCommas | Project 2/src/lib/stdio.c:504-513 | A grouped numeral without its commas is the numeral without grouping |
| Stdio.ParseConversion | Project 2/src/lib/stdio.c:371-416 | Flags, width and precision are reconciled in the order of the code, so a negative width sets left alignment after the zero flag has been weighed against it |
| Stdio.Buffer.PutDigits | Project 2/src/lib/stdio.c:504-513 | The buffer, read backwards, holds the numeral with its commas; it never overflows |
| Stdio.Buffer.PutZeros | Project 2/src/lib/stdio.c:520-522 | The zeros needed for the precision, as many as fit |
| Stdio.Buffer.PutOctalZero | Project 2/src/lib/stdio.c:523-524 | One more zero for the octal form exactly when the numeral does not begin with one; it never overflows |
| Stdio.Buffer.PutNumeral | Project 2/src/lib/stdio.c:504-524 | All three together never exceed the buffer, for any base, grouping, precision and flag |
| Stdio.OutputDup | Project 2/src/lib/stdio.c:551-555 | The loop emits cnt copies |
| Stdio.Unload | Project 2/src/lib/stdio.c:543-544 | The loop emits the buffer backwards |
| Stdio.FormatInteger | Project 2/src/lib/stdio.c:470-547 | The output is padding, sign, prefix, zeros and numeral in the order that the flags demand, for every combination of flags |
| Stdio.ParseDigits | Project 2/src/lib/stdlib.c:35-36 | The digit loop computes the negated value of the digits, wrapped to 32 bits |
| Stdio.Atoi | Project 2/src/lib/stdlib.c:10-41 | Leading white space, an optional sign, and the longest run of digits, for every string |
| Stdio.AtoiReadsBack | Project 2/src/lib/stdio.c:470-547 | For every 32-bit x, flag, width and precision, atoi of the decimal conversion is x if and only if digits are not grouped or x lies strictly between −1000 and 1000 |
| Stdio.GroupingIsLost | Project 2/src/lib/stdio.c:504-513 | With grouping 1000 is written as a text that atoi reads as 1 |
| StdioLaws.ValueIsPrinted | Project 2/src/lib/stdio.c:470-547 | In every base, with any flags, width and precision, the digits of the output denote the value |
| StdioLaws.DigitCount | Project 2/src/lib/stdio.c:504-524 | How many digits are printed: the least number that the value needs, zeros up to the precision, which counts commas, and the zeros of a prefix or of %#o |
| StdioLaws.PrintsNothing | Project 2/src/lib/stdio.c:515-524 | No digit is printed if and only if the value is 0, the precision is 0, and it is not %#o |
| StdioLaws.NoLeadingZero | Project 2/src/lib/stdio.c:504-522 | Without precision, zero fill and prefix, 0 is printed as one digit and no other value with a leading zero |
| StdioLaws.LaidOut | Project 2/src/lib/stdio.c:526-546 | The output is blanks, sign, prefix, zeros, digits and blanks in this order, with sign and prefix exactly where the flags ask for them, and as many blanks as the width needs on the side that the flags choose |
| StdioLaws.CommasArePlaced | Project 2/src/lib/stdio.c:504-513 | A comma stands behind a digit and in front of a positive multiple of the group size of digits |
| StdioLaws.GroupedLength | Project 2/src/lib/stdio.c:504-513 | The number of commas in a grouped numeral |
| StdioLaws.DigitCase | Project 2/src/lib/stdio.c:138-141 | Letters are small with %x and capital with %X, and the other bases have none |
| Stdio.Output.Helper | Project 2/src/lib/stdio.c:45-52 | A character is stored while there is room and counted always |
| Stdio.Vsnprintf | Project 2/src/lib/stdio.c:26-42 | The buffer holds a null-terminated prefix, as long as fits, and the result is the full length |
| Ustar.StrippingIsIdempotent | Project 2/src/lib/ustar.c:66-73 | A stripped name is not empty, leads neither to the root nor to a parent, and is not changed by stripping again |
| Ustar.StrippedIs | Project 2/src/lib/ustar.c:66-73 | Exactly the pieces "/", "./" and "../" at the front are dropped, all of them, and "." stands for nothing or ".." |
| Ustar.StripAntisocialPrefixes | Project 2/src/lib/ustar.c:66-73 | The loop computes the stripped name |
| Ustar.CalculateChksum | Project 2/src/lib/ustar.c:37-54 | The sum of all bytes with the checksum field read as blanks |
| Ustar.OctalDenotes | Project 2/src/lib/ustar.c:83-118 | An octal field has its full width and denotes the value |
| Ustar.ParseOctalField | Project 2/src/lib/ustar.c:130-162 | The loop computes the number in the field, with its check for overflow |
| Ustar.FieldValueIs | Project 2/src/lib/ustar.c:130-162 | A field is accepted with value v if and only if v fits 32 bits and some nonempty run of octal digits at its beginning denotes v and is followed by a blank or a null |
| Ustar.OctalFieldParses | Project 2/src/lib/ustar.c:130-162 | A written octal field is read back |
| Ustar.UstarMakeHeader | Project 2/src/lib/ustar.c:83-118 | It fails, changing nothing, exactly for stripped names over 99 characters, and otherwise fills all 512 bytes |
| Ustar.HeaderFields | Project 2/src/lib/ustar.c:83-118 | Name, size, type, magic, version and checksum fields of a made header, each where the format has it |
| Ustar.OtherFields | Project 2/src/lib/ustar.c:83-118 | Mode, user, group, modification time, owner names and the fields that stay null |
| Ustar.IsAllZeros | Project 2/src/lib/ustar.c:166-173 | Whether all bytes are zero |
| Ustar.UstarParseHeader | Project 2/src/lib/ustar.c:182-227 | The parser with its eight errors in the order in which they are detected |
| Ustar.MadeHeaderParses | Project 2/src/lib/ustar.c:182-227 | Parsing a made header gives the stripped name, the type, and the size, or 0 for a directory |
| Ustar.DamageIsDetected | Project 2/src/lib/ustar.c:191-207 | Changing any one byte outside the checksum field of any header that parses makes it rejected |
| Arguments.TokensAreClean | Project 2/src/lib/string.c:235-275 | Tokens are not empty and contain no delimiter |
| Arguments.TokensOfJoined | Project 2/src/lib/string.c:235-275 | Tokens joined by a delimiter are taken apart again |
| Arguments.DelimitersAreSkipped | Project 2/src/lib/string.c:249-261 | Any number of delimiters in front of a token make no token |
| Arguments.Tokenizer.Strtok | Project 2/src/lib/string.c:235-275 | Each call returns the next token, terminated in place, and writes nothing before the saved position; it ends exactly when no token is left |
| Arguments.Tokenizer.SkipDelimiters | Project 2/src/lib/string.c:249-261 | It stops at the first character that is no delimiter |
| Arguments.Tokenizer.SkipToken | Project 2/src/lib/string.c:264-266 | It stops at the first delimiter or at the end of the string |
| Arguments.PushTokens | Project 2/src/userprog/process.c:454-471 | Every token is on the stack, and argv, through all its doublings, points to them in order |
| Arguments.PushArgv | Project 2/src/userprog/process.c:481-485 | The argv words, null last, are on the stack above which the strings stay intact |
| Arguments.SetupStack | Project 2/src/userprog/process.c:431-500 | From the final esp memory holds a zero return slot, argc, argv, and argc words that point to exactly the tokens in order, followed by a null word, for every command line that fits the page; esp itself is given |
| Arguments.AlignedExactlyWhen | Project 2/src/userprog/process.c:474-495 | The final esp is aligned to words if and only if the size of the strings modulo 20 lies in 8..12 |
| Arguments.PaddingIsNotAlignment | Project 2/src/userprog/process.c:474-479 | With a program name of one character and no arguments esp is not aligned |
| Loader.ValidSegmentIsLoadable | Project 2/src/userprog/process.c:268-291 | For every valid segment the computed counts satisfy the precondition of load_segment and the pages lie in user space |
| Loader.Process.InstallPage | Project 2/src/userprog/process.c:512-520 | A page is added exactly when it is not mapped yet and there is memory |
| Loader.Process.LoadSegment | Project 2/src/userprog/process.c:378-420 | It succeeds if and only if the file is long enough, every page is free and can be had, and there is a bounce buffer if the last read ends inside a sector; then each page holds its part of the file and zeros behind it; no page is ever replaced; the loop terminates |
| Loader.SegmentIsLoaded | Project 2/src/userprog/process.c:268-291 | The filesz bytes of the segment are at its address, with zeros up to memsz and the end of the page, with its writability |
| Loader.SegmentStays | Project 2/src/userprog/process.c:205-312 | Loading more keeps a loaded segment |
| Loader.SegmentsAreApart | Project 2/src/userprog/process.c:512-520 | Segments of a program that can be loaded share no page |
| Loader.SegmentTurn | Project 2/src/userprog/process.c:266-295 | Whether a segment can be loaded when its turn comes is decided by the memory at the start and the segments in front of it |
| Loader.ReadHeader | Project 2/src/userprog/process.c:246-251 | A program header is read exactly when it lies in the file and there is a bounce buffer, with the signed file offset of the code |
| Loader.LoadHeader | Project 2/src/userprog/process.c:253-296 | Dealing with one header succeeds if and only if its type is not refused and, for a loadable one, the segment is valid, can be read, and on pages that are free and not those of an earlier segment |
| Loader.LoadOne | Project 2/src/userprog/process.c:266-295 | It succeeds if and only if the header is valid, its bytes can be read and its pages are free; then the segment is in memory on exactly those pages |
| Loader.Load | Project 2/src/userprog/process.c:205-312 | It succeeds exactly under the condition that `LoaderLaws.LoadsExactly` spells out; then every loadable segment is in memory as its header says, with an empty page for the stack and no other page, and the entry point is that of the file |
| LoaderLaws.AcceptedExactly | Project 2/src/userprog/process.c:321-366 | A segment is accepted if and only if, in unbounded arithmetic, offset and address agree modulo 4096, the offset is at most the file length, 0 < memsz, filesz <= memsz, 4096 <= vaddr and vaddr + memsz < 0xC0000000 |
| LoaderLaws.ExecutableIs | Project 2/src/userprog/process.c:228-234 | The bytes of an executable header that are accepted, and where entry point, header offset and count are |
| LoaderLaws.LoadsExactly | Project 2/src/userprog/process.c:205-312 | In terms of the bytes of the file: load succeeds if and only if the header is that of an executable, every program header is there and not refused, the segments are in order, lie in the file and occupy distinct free pages other than that of the stack, and there is memory |
| LoaderLaws.LoadedIsInMemory | Project 2/src/userprog/process.c:253-312 | After load every byte of every segment is at its address with zeros up to the end of its last page, writable exactly if bit 1 of its flags is set, the page of the stack is empty, and the entry point is the word at 24 |

## Left out

Scheduler:

- The waiter lists of condition variables (`cond_wait`, `cond_signal`, `cond_broadcast`). The comparison that
  sorts them is not a strict order on empty lists. What these functions do to locks and semaphores are steps of the
  machine.
- Threads that exit while they hold a lock or wait for one: a step that exits is allowed
  only for a thread that holds none.
- Semaphores set up during a run, and a semaphore value that reaches 2^32.
- The multi-level feedback queue together with locks: `Scheduler` is the kernel with
  `thread_mlfqs` false, `Mlfqs` the arithmetic with it true, where the running thread and the length of the
  ready list are inputs of each tick.
- SchedulerKernel.Kernel.ListSort: states that the result is some sorted permutation, because that is all the
  callers rely on; the merge sort over links, and its stability, are not modelled.
- The links of `struct list`: lists are sequences.
- The context switch, interrupt hardware, and stack overflow checks on `struct thread`.

File system:

- `dir_readdir`, `dir_reopen`, `inode_get_inumber`: easy members.
- Starting on a disk whose last save of the free map was not complete.
- What happens after a `dir_add` that did harm: the invariant no longer holds, and further operations are not modelled.
- Negative offsets and positions, negative lengths (an assertion fails), and overflow of `off_t`.
- The places where the code panics: formatting is modelled as failing instead.
- The bits of the free-map file past the last sector are written as zeros.
- Device errors, and the block layer below `block_read` and `block_write`.

Heap:

- The page pool for user programs and the split of memory in `palloc_init`; one pool is modelled, and its
  map is a sequence of bits that has the contract proved for `Bitmaps.Bitmap`.
- The storage of arena headers and list links inside the pages themselves: they are kept beside memory, which is right
  as long as writes stay inside live blocks, because these never overlap headers (`Heap.BlockInRun`). Writes of
  `calloc` and `realloc` past a block that is too small are not modelled.
- The locks of the descriptors and of the pool.
- HeapClass.Allocator.Realloc: promises nothing, not even the invariant, when the copy does not fit the new block, because
  it then overwrites whatever lies behind that block.
- HeapClass.Allocator.MoveBlock: the same.
- HeapClass.Allocator.Calloc: the same for wrapped products above 0xFFFFFFF4, where it clears memory past the block.

Smaller components:

- `hash_destroy` and the hash functions; a hash and an order that agree with each other are parameters.
- Sorting swaps whole elements; the byte loop of `do_swap` and the pointer arithmetic on element sizes
  are not modelled.
- Page directories: `pagedir_activate`, the TLB and CR3; `SetDirty`, `SetAccessed` and the two queries only for
  user addresses.
- Pagedir.PageDirectory.SetDirty: only for user addresses, because the page tables of the kernel are not modelled.
- Pagedir.PageDirectory.SetAccessed: the same.
- `printf`: recognising the characters of a conversion, strings and human-readable sizes; the width whose negation does
  not fit an int.
- Ustar: `memcmp` on the magic and version fields is equality of those bytes.
- `setup_stack`: the frame of its page and its argument vector are always allocated; without them the code goes on
  and writes through pointers that are not valid.
- Loading: the page directory, the executable file and its name are given; `LoadSegment` and `Load` take the outcome
  of each allocation as a parameter; deny-write on the executable, and closing the file.
- Starting, waiting for and ending processes, system calls, the keyboard, timer calibration,
  partitions, the shell and the utilities.
