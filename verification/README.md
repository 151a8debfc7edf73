# A verified model of Nachos

Nachos 3.4 is a teaching operating system that runs on its own simulated machine. This project models
its thread kernel and interrupt clock, its file system, its disk, its CPU with address translation and
demand paging, and its post office, in Dafny 4.11, and proves what these promise over all inputs and
all runs. `dafny verify dfyconfig.toml` checks the whole project.

How it is built:

* State that the source updates in place is a class with methods and loops. Each method is proved
  against a function on values, and the lasting properties are lemmas about those functions.
* Concurrency is a step machine. A context switch can happen only where simulated time advances, or at
  Yield and Sleep (`machine/interrupt.h:17-21`), so one step is the code between two such points.
  `Kernel` has the steps of threads, scheduler, semaphores, locks and conditions; `SynchDisks` and
  `SynchLists` are protocols on top of it, with any other threads running around them.
* That these steps are indivisible is proved. `InterruptLevels` has the routines one action at a time,
  with the interrupt level and the saved levels, and interrupts where SetLevel turns them on;
  `LevelProofs` shows that each of its runs is a run of `Kernel`, and `InterruptSafety` draws the
  consequences. `KernelCode` has the same steps as code over the linked lists.
* The file system is the FILESYS build, with a direct table of NumDirect entries.
* The CPU's switch is a function from registers and instruction to an effect (`Cpu`). What each
  instruction does to the whole machine is stated again, without it, in `Instructions`.
* A C `int` is a `Words.Word` with explicit wrap-around. Ticks and times are unbounded.

Results where the code does not do what its comments or the MIPS manual say; each has its exact
condition:

* A finished thread is deleted only if the processor next passes to a thread that has run before; if a
  second thread finishes first, it is never deleted (`KernelRuns.CarcassFate`,
  `KernelRuns.CarcassFateOverRuns`, `KernelRuns.CarcassCanLeak`).
* Acquire tests the lock with interrupts on. This is safe only because of simulated time
  (`InterruptSafety.TestAndSetIsIndivisible`, `KernelRuns.LockNeedsSimulatedTime`).
* Removing a file of exactly NumDirect sectors leaks its data sectors (`FileSystems.LeakGrows`,
  `FileSystems.CreateThenRemove`, `FileSystems.FullFileLeaks`).
* A file request whose end exceeds the `int` range is not clipped (`OpenFiles.ClippedExactly`,
  `OpenFiles.RequestCanOverflow`).
* OR, SRL and SRLV differ from MIPS; DIV of -2^31 by -1 faults on the host (`Cpu.OrIsRight`,
  `Cpu.OrCanBeWrong`, `Cpu.SrlIsRight`, `Cpu.SrlCanBeWrong`, `Cpu.DivideIsExact`, `Cpu.DivideCanStop`).
* A dirty victim is written back under the process that faulted (`Paging.WrongOwnerContents`,
  `Paging.ContentsKeptExactly`, `Paging.InvKeptExactly`, `CrowdedMemory.OtherProcessLosesPage`).
* The replacement list called LRU is first in, first out (`Paging.VictimIsOldest`,
  `Paging.JustUsedIsVictim`).

## Model

| member | source | states |
|---|---|---|
| Kernel.BootInv | nachos-3.4/code/threads/thread.cc:34-44 | A kernel that has just started satisfies the invariant: one running thread, no thread on a list it does not belong to. |
| Kernel.ReapInv | nachos-3.4/code/threads/scheduler.cc:119-128 | Deleting the carcass keeps the invariant, because a finished thread is on no list. |
| Kernel.DispatchInv | nachos-3.4/code/threads/thread.cc:211-226 | Giving the processor to the head of the ready list at the end of Sleep keeps the invariant. |
| Kernel.ReadyInv | nachos-3.4/code/threads/scheduler.cc:53-60 | Putting a new thread or the running thread at the end of the ready list keeps the invariant. |
| Kernel.YieldInv | nachos-3.4/code/threads/thread.cc:174-190 | Yield keeps the invariant; where the threads go is KernelRuns.ReadyStep. |
| Kernel.WakeInv | nachos-3.4/code/threads/synch.cc:87-98 | Moving the head of a wait queue to the ready list keeps the invariant. |
| Kernel.WakeAllInv | nachos-3.4/code/threads/synch.cc:230-246 | Emptying a condition's queue onto the ready list keeps the invariant. |
| Kernel.BlockInv | nachos-3.4/code/threads/synch.cc:64-79 | Enqueueing the running thread and blocking it keeps the invariant. |
| Kernel.AcquireInv | nachos-3.4/code/threads/synch.cc:123-143 | The busy wait of Acquire keeps the invariant, in which a thread that has passed the test still finds the lock free or its own. |
| Kernel.StepInv | nachos-3.4/code/threads/synch.cc:64-246 | Every step of every kernel routine keeps the invariant: statuses agree with places, queues hold each thread once, a thread about to set heldThread may. |
| KernelRuns.RunInv | nachos-3.4/code/threads/thread.cc:87-226 | The invariant holds after every run of kernel steps. |
| KernelRuns.ExactlyOnePlace | nachos-3.4/code/threads/thread.cc:143-226 | In every reachable state each allocated thread occurs exactly once in exactly one place: processor, ready list, one wait queue, not yet forked, or finished; a deleted one occurs nowhere. |
| KernelRuns.StepReaper | nachos-3.4/code/threads/scheduler.cc:90-135 | How one step changes currentThread and threadToBeDestroyed: the carcass is dropped only by a switch to a thread that has run before. |
| KernelRuns.StepThreads | nachos-3.4/code/threads/scheduler.cc:119-128 | Which threads exist after a step: all that did, the new one, minus the carcass exactly when it is reaped. |
| KernelRuns.DeletionIsSafe | nachos-3.4/code/threads/scheduler.cc:119-128 | A thread is deleted only if it has finished and was named by threadToBeDestroyed, and never while it is the current thread. |
| KernelRuns.DeletedStaysDeleted | nachos-3.4/code/threads/scheduler.cc:119-128 | A deleted thread is never there again, so it is destroyed at most once. |
| KernelRuns.ThreadStep | nachos-3.4/code/threads/thread.cc:143-226 | A step as one thread sees it: dispatched, woken, forked, its own move, or nothing. |
| KernelRuns.FinishedNeverRuns | nachos-3.4/code/threads/thread.cc:143-154 | Once finished, a thread never runs or becomes ready again, whatever follows. |
| KernelRuns.CarcassFate | nachos-3.4/code/threads/scheduler.cc:119-128 | A carcass is deleted exactly by a switch to a thread that has run before, and forgotten exactly when another thread finishes first. |
| KernelRuns.CarcassFateOverRuns | nachos-3.4/code/threads/scheduler.cc:111-128 | Over any run a carcass is deleted exactly if a switch to a thread that has run before comes before the next Finish, and never deleted exactly if the Finish comes first. |
| KernelRuns.LeakIsForever | nachos-3.4/code/threads/scheduler.cc:119-128 | A finished thread that threadToBeDestroyed no longer names is never deleted. |
| KernelRuns.CarcassCanLeak | nachos-3.4/code/threads/scheduler.cc:111-128 | Such a run exists: a thread finishes into a fresh thread, which starts outside Run, and that one finishes too. |
| KernelRuns.LockLeavesOwner | nachos-3.4/code/threads/synch.cc:148-163 | A held lock stays with its owner under every step except the owner's own Release or Wait, and those do free it. |
| KernelRuns.LockTakenWhenFree | nachos-3.4/code/threads/synch.cc:123-143 | A thread becomes the owner only by setting heldThread while it is NULL, although the test came earlier with interrupts on. |
| KernelRuns.OwnershipIsStable | nachos-3.4/code/threads/synch.cc:123-174 | Over any run in which the owner does not give the lock up, it remains the owner. |
| KernelRuns.NestedAcquireIsNotCounted | nachos-3.4/code/threads/synch.cc:123-163 | Acquire by the owner succeeds, and one Release after it frees the lock. |
| KernelRuns.LockNeedsSimulatedTime | nachos-3.4/code/machine/interrupt.h:17-28 | From a state reached from the start, with a switch between the test and the assignment, the same code takes the lock away from its owner. |
| KernelRuns.QueueStep | nachos-3.4/code/threads/synch.cc:197-246 | How one step changes a condition's queue: a signal takes the head, a wait adds at the end, a broadcast empties it, all only for the lock holder. |
| KernelRuns.WaiterMovesUp | nachos-3.4/code/threads/synch.cc:197-228 | A waiter moves up one place with each signal of a lock holder and with nothing else. |
| KernelRuns.SignalReachesWaiter | nachos-3.4/code/threads/synch.cc:197-228 | The i-th waiter is made ready by exactly the (i+1)-st later signal, over any interleaving. |
| KernelRuns.SemQueueStep | nachos-3.4/code/threads/synch.cc:64-98 | How one step changes a semaphore's queue: a V takes the head, a P that finds 0 adds at the end. |
| KernelRuns.ReadyStep | nachos-3.4/code/threads/scheduler.cc:53-74 | The ready list after every event: its head goes exactly if the event switches, and the threads it makes ready come behind all that were there, in the order of the queue they left. |
| KernelRuns.ReadyMovesUp | nachos-3.4/code/threads/scheduler.cc:53-74 | Over any run a ready thread moves up one place with each switch and with nothing else. |
| KernelRuns.TurnComes | nachos-3.4/code/threads/thread.cc:174-190 | The thread at index i of the ready list gets the processor at exactly the (i+1)-st switch and is ready until then, whatever runs in between. |
| KernelRuns.SemaphoreConserved | nachos-3.4/code/threads/synch.cc:64-98 | Over any run: value + completed Ps = initial value + Vs. |
| KernelRuns.WokenStep | nachos-3.4/code/threads/synch.cc:64-98 | Which threads are woken and have not tested again after a step: a V adds the head of the queue, a test removes the tester. |
| KernelRuns.WakeupStep | nachos-3.4/code/threads/synch.cc:64-98 | One step keeps: threads queued implies value at most the number of woken threads. |
| KernelRuns.SemaphoreLosesNoWakeup | nachos-3.4/code/threads/synch.cc:64-98 | In every reachable state, if threads are queued then the value is at most the number of woken threads that have yet to test it. |
| KernelRuns.StepEffect | nachos-3.4/code/threads/synch.cc:64-246 | Owners, current thread and every thread after a step, as the protocols built on the kernel use them. |
| Kernel.WakeThenAll | nachos-3.4/code/threads/synch.cc:238-243 | Waking one waiter and then all the rest is waking all of them. |
| LevelProofs.SimP | nachos-3.4/code/threads/synch.cc:64-77 | Each action of P, between SetLevel(IntOff) and SetLevel(oldLevel), is no step of Kernel or its P step, and leaves the level and the saved levels right. |
| LevelProofs.SimV | nachos-3.4/code/threads/synch.cc:87-98 | Likewise for V, called by a thread, by a handler in OneTick, or by a handler in Idle, where the thread it makes ready may be the sleeping one itself. |
| LevelProofs.SimAcquire | nachos-3.4/code/threads/synch.cc:123-143 | Likewise for Acquire, whose test and assignment are two actions. |
| LevelProofs.SimRelease | nachos-3.4/code/threads/synch.cc:148-163 | Likewise for Release. |
| LevelProofs.SimWait | nachos-3.4/code/threads/synch.cc:197-211 | Likewise for Wait: the append is its step, and the Release inside, which finds interrupts off and leaves them off, is none. |
| LevelProofs.SimSignal | nachos-3.4/code/threads/synch.cc:213-228 | Likewise for Signal, with its test of the queue before interrupts are off. |
| LevelProofs.SimBroadcast | nachos-3.4/code/threads/synch.cc:230-246 | Likewise for Broadcast and its loop. |
| LevelProofs.SimYield | nachos-3.4/code/threads/thread.cc:174-190 | Likewise for Yield, by call, by time slice or in the busy wait of Acquire. |
| LevelProofs.SimForkFinish | nachos-3.4/code/threads/thread.cc:87-154 | Likewise for Fork and Finish. |
| LevelProofs.SimSwitch | nachos-3.4/code/threads/scheduler.cc:90-135 | SWITCH is no step of its own, and the thread that goes on has the level and the saved levels that it left with. |
| LevelProofs.SimAsleep | nachos-3.4/code/threads/thread.cc:211-226 | The end of the loop in Sleep is the Dispatch step. |
| LevelProofs.StepProjects | nachos-3.4/code/threads/synch.cc:64-246 | Every action of every routine, tick, time slice and handler is no step or one step of Kernel, and keeps the invariant of levels, saved levels and frames. |
| LevelProofs.RunProjects | nachos-3.4/code/threads/synch.cc:64-246 | Every interleaving of such actions is a legal run of Kernel and ends in the state it stands for. |
| InterruptSafety.RoutinesRefineKernel | nachos-3.4/code/machine/interrupt.cc:114-179 | From the start of the machine: whatever the routines do, with handlers and time slices wherever SetLevel turns interrupts from off to on, is a run of Kernel. |
| InterruptSafety.TimeAdvancesAtTickPoints | nachos-3.4/code/machine/interrupt.cc:114-179 | In every reachable state in which time can advance, interrupts are on and the running thread is at a tick point of Kernel. |
| InterruptSafety.OffIsIndivisible | nachos-3.4/code/machine/interrupt.cc:114-127 | With interrupts off nothing can come in; only a sleeping thread without a ready one waits for a handler. |
| InterruptSafety.NeverStuck | nachos-3.4/code/threads/thread.cc:174-226 | A thread inside a routine can always take its next action, unless it sleeps and no thread is ready. |
| InterruptSafety.DataChangeWithInterruptsOff | nachos-3.4/code/threads/synch.cc:64-246 | Ready list, wait queues, semaphore values, lock owners, statuses and the current thread change only with interrupts off. |
| InterruptSafety.SleepsWithInterruptsOff | nachos-3.4/code/threads/thread.cc:216-225 | The assertion of Sleep on the interrupt level holds in every reachable state, and a switch is made with interrupts off. |
| InterruptSafety.HandlersKeepInterruptsOff | nachos-3.4/code/machine/interrupt.cc:119-121 | The assertion of SetLevel holds: no handler turns interrupts on. |
| InterruptSafety.TestAndSetIsIndivisible | nachos-3.4/code/threads/synch.cc:126-140 | Between the test of Acquire and the assignment nothing but the thread itself acts, and the lock is free or its own, although the test is made with interrupts on. |
| InterruptSafety.WaitIsIndivisible | nachos-3.4/code/threads/synch.cc:203-207 | From SetLevel(IntOff) in Wait until the thread sleeps nothing but the thread itself acts, the Release inside included. |
| InterruptSafety.WaitRunsThrough | nachos-3.4/code/threads/synch.cc:205-207 | The six actions from the append to the sleep leave exactly the state of the one step Wait: queued, lock free, not running. |
| InterruptSafety.LevelsTickLikeTheClock | nachos-3.4/code/machine/interrupt.cc:114-127 | The model ticks in SetLevel exactly where the clock does; otherwise SetLevel sets the level and calls no handler. |
| KernelCode.Scheduler.constructor | nachos-3.4/code/threads/thread.cc:34-44 | The variables of a kernel that has just started show the boot state. |
| KernelCode.Scheduler.ReadyToRun | nachos-3.4/code/threads/scheduler.cc:53-60 | The status and the linked ready list show the ready step. |
| KernelCode.Scheduler.FindNextToRun | nachos-3.4/code/threads/scheduler.cc:70-74 | Removes and returns the head of the linked ready list, or nothing. |
| KernelCode.Scheduler.Run | nachos-3.4/code/threads/scheduler.cc:90-135 | Takes the Run step, with the carcass deleted only by a thread that has run before. |
| KernelCode.Scheduler.Yield | nachos-3.4/code/threads/thread.cc:174-190 | The list operations and the switch together show the Yield step and keep the invariant. |
| KernelCode.Scheduler.Dispatch | nachos-3.4/code/threads/thread.cc:219-226 | Shows the Dispatch step, or changes nothing when the ready list is empty. |
| KernelCode.Scheduler.Enqueue | nachos-3.4/code/threads/synch.cc:70-71 | The linked wait queue has the thread at its end and the thread is blocked; the ready list, which shares no element, is as before. |
| KernelCode.Scheduler.WakeOne | nachos-3.4/code/threads/synch.cc:93-95 | The head of the linked wait queue moves to the end of the ready list, if there is one. |
| KernelCode.Scheduler.TryP | nachos-3.4/code/threads/synch.cc:64-77 | One round of P shows the P step; it passes exactly when the value was positive. |
| KernelCode.Scheduler.SemaphoreV | nachos-3.4/code/threads/synch.cc:87-98 | V shows the V step, on the semaphore's value and both lists. |
| KernelCode.Scheduler.Wait | nachos-3.4/code/threads/synch.cc:197-207 | Shows the Wait step on queue, lock and status; does nothing for a thread that does not hold the lock. |
| KernelCode.Scheduler.Signal | nachos-3.4/code/threads/synch.cc:213-228 | Shows the Signal step. |
| KernelCode.Scheduler.WakeEvery | nachos-3.4/code/threads/synch.cc:238-243 | The loop ends with the queue empty and all its threads, in order, at the end of the ready list. |
| KernelCode.Scheduler.Broadcast | nachos-3.4/code/threads/synch.cc:230-246 | Shows the Broadcast step. |
| SynchDisks.StepInv | nachos-3.4/code/filesys/synchdisk.cc:72-109 | Every step of callers, other threads and the disk interrupt keeps the protocol invariant. |
| SynchDisks.RunInv | nachos-3.4/code/filesys/synchdisk.cc:72-109 | The protocol invariant holds over every interleaving. |
| SynchDisks.OneRequestAtATime | nachos-3.4/code/machine/disk.cc:115-153 | Whenever a caller is about to issue a request the disk is idle: ASSERT(!active) never fires. |
| SynchDisks.ReturnsAfterOwnCompletion | nachos-3.4/code/filesys/synchdisk.cc:72-97 | A call is about to return only after the interrupt of its own request, a read with the sector's contents in its buffer, a write with its data in the sector. |
| SynchDisks.CallKeepsItsRequest | nachos-3.4/code/filesys/synchdisk.cc:72-97 | A call is for the sector and data it was made with, whatever runs in between, and ends only by its Release once it has been served. |
| SynchDisks.OnlyTheHolderWrites | nachos-3.4/code/machine/disk.cc:135-153 | In any run a sector changes only by the request of a write to it, made by the holder of the lock, to the data of that write. |
| SynchDisks.FreeLockMeansQuiet | nachos-3.4/code/filesys/synchdisk.cc:72-109 | Whenever the lock is free the semaphore is 0, the disk is idle and all requests are completed. |
| SynchDisks.SleeperHasInterruptComing | nachos-3.4/code/filesys/synchdisk.cc:105-109 | A caller asleep in P has a request active whose interrupt wakes exactly it. |
| SynchDisks.OneCallerInside | nachos-3.4/code/filesys/synchdisk.cc:72-97 | At most one thread is between Acquire and Release. |
| SynchLists.StepInv | nachos-3.4/code/threads/synchlist.cc:53-82 | Every step of appenders, removers and other threads keeps the monitor invariant. |
| SynchLists.RunInv | nachos-3.4/code/threads/synchlist.cc:53-82 | The monitor invariant holds over every interleaving, with barging. |
| SynchLists.FirstInFirstOut | nachos-3.4/code/threads/synchlist.cc:53-82 | The items appended are those removed followed by those in the list, in order, and each Remove returns the item of its own removal. |
| SynchLists.AppendKeepsItsItem | nachos-3.4/code/threads/synchlist.cc:53-60 | A call of Append puts in the item that it was called with: after any run it still has to, or it has done so. |
| SynchLists.RemovedItemIsNotNull | nachos-3.4/code/threads/synchlist.cc:78-79 | When only non-NULL items are appended ASSERT(item != NULL) never fires: the item that the test found is still there at the removal, whatever runs in between. |
| SynchLists.NoItemForgotten | nachos-3.4/code/threads/synchlist.cc:70-82 | With the lock free and threads queued on the condition, there are at least as many woken waiters as items. |
| SynchLists.MonitorIsExclusive | nachos-3.4/code/threads/synchlist.cc:53-82 | At most one thread is inside the monitor. |
| Lists.InsertedAdds | nachos-3.4/code/threads/list.cc:178-202 | Sorted insertion adds exactly the new entry. |
| Lists.InsertedStaysSorted | nachos-3.4/code/threads/list.cc:178-202 | Sorted insertion into a sorted list gives a sorted list. |
| Lists.InsertedPlace | nachos-3.4/code/threads/list.cc:178-202 | The new entry goes behind every entry with the same or a smaller key and before every greater one; the others keep their order. |
| Lists.List.constructor | nachos-3.4/code/threads/list.cc:42-46 | A new list is empty. |
| Lists.List.IsEmpty | nachos-3.4/code/threads/list.cc:154-161 | True exactly for the empty list. |
| Lists.List.Append | nachos-3.4/code/threads/list.cc:76-88 | The linked list becomes the old one with the item at the end. |
| Lists.List.Prepend | nachos-3.4/code/threads/list.cc:102-114 | The linked list becomes the old one with the item in front. |
| Lists.List.SortedInsert | nachos-3.4/code/threads/list.cc:178-202 | The walk and the pointer changes leave the sorted insertion of the entry. |
| Lists.List.SortedRemove | nachos-3.4/code/threads/list.cc:217-237 | Removes and returns the first entry with its key, or nothing. |
| Clock.FiringReducesDue | nachos-3.4/code/machine/interrupt.cc:166-171 | When CheckIfDue fires a handler the number of due interrupts drops and time stands still, although the handler may schedule more. |
| Clock.RunsKeepTime | nachos-3.4/code/machine/interrupt.cc:114-336 | Over every run that calls Idle with interrupts off: pending list sorted, ticks add up, every request pending at its time or fired once, none early, handlers in order of their times, time and record only grow. |
| Clock.DrainFiresAllDue | nachos-3.4/code/machine/interrupt.cc:166-171 | The draining loop leaves nothing due, except a lone timer on an idle machine. |
| Clock.TickFiresAllDue | nachos-3.4/code/machine/interrupt.cc:150-179 | After OneTick outside idle mode nothing due is pending. |
| Clock.IdleHaltsExactly | nachos-3.4/code/machine/interrupt.cc:210-234 | Idle halts exactly when nothing, or only the timer, is pending; otherwise the clock moves to the next interrupt and the time is idle time. |
| Clock.IdleLeaves | nachos-3.4/code/machine/interrupt.cc:219-226 | An Idle that does not halt ends in the kernel, with interrupts off, no yield due and nothing due pending but perhaps a lone timer. |
| Clock.ScheduleMeans | nachos-3.4/code/machine/interrupt.cc:264-275 | A request adds one interrupt at its delay from now and changes nothing else. |
| Clock.HandlerAsks | nachos-3.4/code/machine/interrupt.cc:323-326 | The requests of a handler are recorded in their order, all at the time of its call. |
| Clock.NeverEarly | nachos-3.4/code/machine/interrupt.cc:264-336 | Over any run every handler called was asked for by a request, and is called no earlier than the request's time plus its delay. |
| Clock.NeverLate | nachos-3.4/code/machine/interrupt.cc:150-171 | After any run and a tick outside idle mode, a request whose time plus delay has come has had its handler called and is no longer pending. |
| Clock.DrainYields | nachos-3.4/code/machine/interrupt.cc:166-171 | After draining a yield is due exactly if it was before or a handler called in between asked for one. |
| Clock.TickMeans | nachos-3.4/code/machine/interrupt.cc:150-179 | A tick is ten units of system time in the kernel and one of user time otherwise, and yields exactly if a yield was due or a handler that it called asked for one. |
| Clock.LevelMeans | nachos-3.4/code/machine/interrupt.cc:114-127 | SetLevel takes time exactly if it turns interrupts from off to on; otherwise it changes the level and nothing else. |
| Clock.PutBack | nachos-3.4/code/machine/interrupt.cc:309-312 | Putting the head back leaves a sorted list with the same entries, maybe behind equal keys. |
| Interrupts.Interrupt.constructor | nachos-3.4/code/machine/interrupt.cc:59-67 | The clock starts with interrupts off, nothing pending and no ticks. |
| Interrupts.Interrupt.Schedule | nachos-3.4/code/machine/interrupt.cc:264-275 | Inserts the interrupt into the linked list at its time, strictly in the future. |
| Interrupts.Interrupt.CheckIfDue | nachos-3.4/code/machine/interrupt.cc:290-336 | With interrupts off, as it asserts: fires at most one due interrupt, or puts it back, as specified, advancing the clock if asked. |
| Interrupts.Interrupt.DrainDue | nachos-3.4/code/machine/interrupt.cc:169-170 | The loop terminates and equals draining everything due. |
| Interrupts.Interrupt.OneTick | nachos-3.4/code/machine/interrupt.cc:150-179 | Advances time by the mode's tick, drains, and reports whether to yield. |
| Interrupts.Interrupt.Idle | nachos-3.4/code/machine/interrupt.cc:210-234 | Advances to the next interrupt and drains, or reports that the machine halts. |
| Interrupts.Interrupt.SetLevel | nachos-3.4/code/machine/interrupt.cc:114-127 | Ticks exactly when interrupts go from off to on; returns the old level. |
| BitMaps.MarkSet | nachos-3.4/code/userprog/bitmap.cc:46-51 | Or-ing one bit into its word adds exactly that number to the marked set. |
| BitMaps.ClearSet | nachos-3.4/code/userprog/bitmap.cc:60-65 | And-ing with the complement removes exactly that number. |
| BitMaps.RoomMeansClear | nachos-3.4/code/userprog/bitmap.cc:94-103 | There is a clear number exactly when fewer than n are marked. |
| BitMaps.BitMap.constructor | nachos-3.4/code/userprog/bitmap.cc:20-27 | A new map marks nothing. |
| BitMaps.BitMap.Mark | nachos-3.4/code/userprog/bitmap.cc:46-51 | Adds the number to the set. |
| BitMaps.BitMap.Clear | nachos-3.4/code/userprog/bitmap.cc:60-65 | Removes the number from the set. |
| BitMaps.BitMap.Test | nachos-3.4/code/userprog/bitmap.cc:74-83 | Tells membership in the set. |
| BitMaps.BitMap.Find | nachos-3.4/code/userprog/bitmap.cc:94-103 | Returns and marks the least clear number, or returns -1 and changes nothing. |
| BitMaps.BitMap.NumClear | nachos-3.4/code/userprog/bitmap.cc:111-119 | Counts the size minus the cardinality of the set. |
| FileHeaders.TakenAreFresh | nachos-3.4/code/filesys/filehdr.cc:71-104 | The sectors found one after the other are distinct, were clear and lie on the disk. |
| FileHeaders.TakenInOrder | nachos-3.4/code/filesys/filehdr.cc:71-104 | Every sector below the i-th one taken was marked or was taken before it. |
| FileHeaders.SectorsHold | nachos-3.4/code/filesys/filehdr.cc:48-50 | The number of sectors is the least whose sectors hold the bytes. |
| FileHeaders.AllocateIsExact | nachos-3.4/code/filesys/filehdr.cc:41-107 | Allocate succeeds exactly when the size is in range and there is room; then every Find succeeds with distinct fresh sectors. |
| FileHeaders.FileHeader.Allocate | nachos-3.4/code/filesys/filehdr.cc:41-107 | The header and the bitmap become those of the specification; on failure the bitmap is unchanged; a negative size fails. |
| FileHeaders.FileHeader.AllocateSectors | nachos-3.4/code/filesys/filehdr.cc:71-104 | The loop fills the table with the least clear sectors in order and marks them. |
| FileHeaders.FileHeader.Deallocate | nachos-3.4/code/filesys/filehdr.cc:131-141 | Clears exactly the file's sectors if there are fewer than NumDirect, otherwise none; its ASSERT holds. |
| FileHeaders.FileHeader.ByteToSector | nachos-3.4/code/filesys/filehdr.cc:238-248 | The sector that holds the byte at the offset. |
| Directories.Find | nachos-3.4/code/filesys/directory.cc:90-97 | The first entry in use with the name cut to nine characters, or the size of the table. |
| Directories.NineCharactersCount | nachos-3.4/code/filesys/directory.cc:90-97 | Two names are the same to the directory exactly if they agree in their first nine characters. |
| Directories.FindAfterAdd | nachos-3.4/code/filesys/directory.cc:129-143 | After adding a new name, it is found in its slot and every other name where it was; names stay unique. |
| Directories.FindAfterRemove | nachos-3.4/code/filesys/directory.cc:153-162 | After removing a name it is not found and every other name is found where it was. |
| Directories.Directory.constructor | nachos-3.4/code/filesys/directory.cc:38-44 | No entry of a new table is in use. |
| Directories.Directory.FindIndex | nachos-3.4/code/filesys/directory.cc:90-97 | The index of the name or -1. |
| Directories.Directory.FindSector | nachos-3.4/code/filesys/directory.cc:108-116 | The header sector of the name or -1. |
| Directories.Directory.Add | nachos-3.4/code/filesys/directory.cc:129-143 | Succeeds exactly if the name is new and an entry is free, and then fills the first free entry; else changes nothing. |
| Directories.Directory.Remove | nachos-3.4/code/filesys/directory.cc:153-162 | Takes the name's entry out of use; fails exactly if the name is not there. |
| FileSystems.FormattedInv | nachos-3.4/code/filesys/filesys.cc:80-143 | After formatting, the marked sectors are those of the bitmap and the directory. |
| FileSystems.MapFile | nachos-3.4/code/filesys/filesys.cc:99-99 | Formatting gives the bitmap file sector 2: the first ASSERT holds. |
| FileSystems.DirFile | nachos-3.4/code/filesys/filesys.cc:100-100 | Formatting gives the directory file sectors 3 and 4: the second ASSERT holds. |
| FileSystems.CreateInstalls | nachos-3.4/code/filesys/filesys.cc:174-215 | A successful Create adds one file on sectors that were clear, with the size asked for. |
| FileSystems.CreateInv | nachos-3.4/code/filesys/filesys.cc:174-215 | Create keeps: marked sectors are the disjoint union of the system's, the listed files' and the leaked ones. |
| FileSystems.CreateSucceedsExactly | nachos-3.4/code/filesys/filesys.cc:174-215 | Create succeeds exactly if the name is not listed, an entry is free, the size is between 0 and MaxFileSize, and header and data find room; when it fails nothing changes. |
| FileSystems.RemoveSucceedsExactly | nachos-3.4/code/filesys/filesys.cc:257-288 | Remove succeeds exactly if the name is listed; when it fails nothing changes; after it the name is not listed, and other names have their entries and headers. |
| FileSystems.RemoveInv | nachos-3.4/code/filesys/filesys.cc:257-288 | Remove keeps the same, with the data of a file of exactly NumDirect sectors added to the leaked ones. |
| FileSystems.DropFacts | nachos-3.4/code/filesys/filehdr.cc:131-141 | Remove clears exactly the file's sectors except the leaked ones. |
| FileSystems.Step | nachos-3.4/code/filesys/filesys.cc:174-288 | One Create or Remove keeps the bitmap in agreement with the directory. |
| FileSystems.After | nachos-3.4/code/filesys/filesys.cc:174-288 | So does any run of Creates and Removes. |
| FileSystems.StepLeak | nachos-3.4/code/filesys/filehdr.cc:138-141 | One operation leaks exactly when it removes a file of NumDirect sectors. |
| FileSystems.LeakGrows | nachos-3.4/code/filesys/filehdr.cc:138-141 | Over any run leaked sectors stay leaked, and nothing leaks exactly when no file of NumDirect sectors is removed. |
| FileSystems.SmallFilesNeverLeak | nachos-3.4/code/filesys/filehdr.cc:138-141 | A run that creates only files below NumDirect sectors never removes a full one. |
| FileSystems.MarkedIsOwned | nachos-3.4/code/filesys/filesys.cc:80-288 | From a fresh format, in such runs, a sector is marked exactly if it is the system's or belongs to a listed file, and it belongs to only one. |
| FileSystems.CreateThenFind | nachos-3.4/code/filesys/filesys.cc:174-241 | After Create the name opens a file of the size asked for, and every other name the same header as before. |
| FileSystems.CreateThenRemove | nachos-3.4/code/filesys/filesys.cc:174-288 | Remove undoes Create: lookups are as before, and the bitmap is exactly when the size is below NumDirect sectors. |
| FileSystems.FullFileLeaks | nachos-3.4/code/filesys/filehdr.cc:138-141 | On a fresh disk, creating a file of the largest size and removing it leaks. |
| FileSystems.WriteStaysInside | nachos-3.4/code/filesys/openfile.cc:146-186 | A write to one listed file touches no header, nothing of the bitmap and the directory, and no byte of another file. |
| FileSystems.FileSystem.constructor | nachos-3.4/code/filesys/filesys.cc:80-143 | Formatting leaves a formatted disk; both assertions are proved. |
| FileSystems.FileSystem.Create | nachos-3.4/code/filesys/filesys.cc:174-215 | Result and disk are those of the specification; a failed Create writes nothing. |
| FileSystems.FileSystem.Open | nachos-3.4/code/filesys/filesys.cc:227-241 | The header of the file with this name, or nothing. |
| FileSystems.FileSystem.Remove | nachos-3.4/code/filesys/filesys.cc:257-288 | Result and disk are those of the specification; Deallocate's ASSERT is proved on every consistent disk. |
| OpenFiles.GotIsExact | nachos-3.4/code/filesys/openfile.cc:116-144 | A read returns as many bytes as asked for, or as there are from the position on, each that of the file at its place. |
| OpenFiles.WrittenIsExact | nachos-3.4/code/filesys/openfile.cc:146-186 | A write changes the bytes from the position on, as far as data and file go, and no others. |
| OpenFiles.Written | nachos-3.4/code/filesys/openfile.cc:146-186 | The flat contents after a write: exactly the clipped range replaced. |
| OpenFiles.ReadAfterWrite | nachos-3.4/code/filesys/openfile.cc:116-186 | A read of the written range returns the data; a read that does not overlap it is unchanged. |
| OpenFiles.FlatUpdate | nachos-3.4/code/filesys/openfile.cc:181-183 | Writing one sector of a file replaces exactly its bytes. |
| OpenFiles.WriteBack | nachos-3.4/code/filesys/openfile.cc:160-183 | The buffer, with its edges read and the data put in, written back, gives the flat write, whatever is past the end of the file. |
| OpenFiles.EdgesFramed | nachos-3.4/code/filesys/openfile.cc:170-175 | Reading the first and the last sector where they are not wholly overwritten is enough. |
| OpenFiles.ClippedExactly | nachos-3.4/code/filesys/openfile.cc:123-126 | With the sum computed in an int, the size that the code goes on with is the clipped one exactly when the sum is in range. |
| OpenFiles.RequestCanOverflow | nachos-3.4/code/filesys/openfile.cc:123-126 | A request from byte 1 of a file of 10 bytes that is not clipped. |
| OpenFiles.OtherContents | nachos-3.4/code/filesys/openfile.cc:146-186 | A write to one file leaves the contents of a file on other sectors alone. |
| OpenFiles.RunRefines | nachos-3.4/code/filesys/openfile.cc:116-186 | Over any run of writes to files on separate sectors, every file reads as its own flat array, whatever the slack holds. |
| OpenFiles.OpenFile.ReadAt | nachos-3.4/code/filesys/openfile.cc:116-144 | Copies exactly the clipped range of the contents into the buffer and nothing else; it goes out of range exactly for a negative position or when position + numBytes exceeds the int range. |
| OpenFiles.OpenFile.ReadSectors | nachos-3.4/code/filesys/openfile.cc:134-138 | The loop reads the sectors of the range in order. |
| OpenFiles.OpenFile.WriteAt | nachos-3.4/code/filesys/openfile.cc:146-186 | The contents become the flat write, every sector outside the file is unchanged, and the count is the clipped one. |
| OpenFiles.OpenFile.Partials | nachos-3.4/code/filesys/openfile.cc:165-175 | Outside the request, up to the end of the file, the new buffer agrees with the file. |
| OpenFiles.OpenFile.WriteSectors | nachos-3.4/code/filesys/openfile.cc:181-183 | The loop replaces exactly the bytes that the buffer covers. |
| OpenFiles.OpenFile.Seek | nachos-3.4/code/filesys/openfile.cc:55-59 | Sets the position. |
| OpenFiles.OpenFile.Read | nachos-3.4/code/filesys/openfile.cc:74-80 | ReadAt at the position, which advances by the count. |
| OpenFiles.OpenFile.Write | nachos-3.4/code/filesys/openfile.cc:82-88 | WriteAt at the position, which advances by the count. |
| Disks.ModuloDiffLeast | nachos-3.4/code/machine/disk.cc:202-209 | ModuloDiff counts the sectors to the first one with the target's number. |
| Disks.FirstPassing | nachos-3.4/code/machine/disk.cc:202-209 | From a sector boundary it gives the first time at which the sector begins to pass. |
| Disks.LatencyIsExact | nachos-3.4/code/machine/disk.cc:232-253 | Without a track-buffer hit the head first moves for 500 ticks a track, and the request ends just when the sector has then fully passed for the first time, less than 34 sector times later. |
| Disks.SeekIsByTracks | nachos-3.4/code/machine/disk.cc:180-184 | A seek takes no time on the same track, 500 ticks to a neighbour in either direction, and over a track in between the sum of both ways. |
| Disks.SeekOf | nachos-3.4/code/machine/disk.cc:180-184 | So it takes 500 ticks for each track between the two. |
| Disks.HitTakesOneSector | nachos-3.4/code/machine/disk.cc:240-247 | A request that the track buffer serves takes 500 ticks. |
| Disks.HitIsExact | nachos-3.4/code/machine/disk.cc:240-247 | There is a hit exactly for a read on the current track whose whole sector passed between bufferInit and the rounded-up time. |
| Disks.LatencyIsPositive | nachos-3.4/code/machine/disk.cc:232-253 | Every latency is at least one sector time. |
| Disks.RunInv | nachos-3.4/code/machine/disk.cc:115-271 | Over every run bufferInit is a multiple of RotationTime, the first boundary after the head reached its track, and not after the end of the request. |
| Disks.RequestIsServedBySector | nachos-3.4/code/machine/disk.cc:115-271 | In every run a hit is for a sector that passed under the head while it was on the track, and ends 500 ticks later; any other request ends just when its sector has passed. |
| Disks.Disk.constructor | nachos-3.4/code/machine/disk.cc:43-68 | A new disk is idle at sector 0 with an empty track buffer. |
| Disks.Disk.TimeToSeek | nachos-3.4/code/machine/disk.cc:179-194 | Seek time by tracks and the wait for the next sector boundary. |
| Disks.Disk.ComputeLatency | nachos-3.4/code/machine/disk.cc:232-253 | The latency of the specification. |
| Disks.Disk.UpdateLast | nachos-3.4/code/machine/disk.cc:261-271 | bufferInit moves exactly when the head moves to another track. |
| Disks.Disk.ReadRequest | nachos-3.4/code/machine/disk.cc:115-133 | Takes the request step and fills the buffer with the sector. |
| Disks.Disk.WriteRequest | nachos-3.4/code/machine/disk.cc:135-153 | Takes the request step and changes exactly that sector. |
| Disks.Disk.HandleInterrupt | nachos-3.4/code/machine/disk.cc:161-166 | The disk is idle again. |
| Words.ShiftsAgree | nachos-3.4/code/machine/mipssim.cc:445-455 | The signed and the unsigned right shift agree exactly if the word is not negative or the count is 0. |
| Words.OrAbsorbs | nachos-3.4/code/machine/mipssim.cc:375-377 | x OR y is x exactly if x has every bit of y. |
| Words.BitwiseIsBitByBit | nachos-3.4/code/machine/mipssim.cc:153-159 | AND, OR and XOR of two words are the operations on each pair of bits. |
| Words.ComplementBits | nachos-3.4/code/machine/mipssim.cc:371-373 | The complement of a word has exactly the other bits. |
| Multiply.TimesIsProduct | nachos-3.4/code/machine/mipssim.cc:659-677 | Adding shifted copies for the set bits gives the product. |
| Multiply.AddHalves | nachos-3.4/code/machine/mipssim.cc:665-668 | Adding the halves with the carry test adds the double words. |
| Multiply.ShiftHalves | nachos-3.4/code/machine/mipssim.cc:672-676 | Shifting the halves doubles the double word, up to the bits lost at the top. |
| Multiply.ShiftAndAdd | nachos-3.4/code/machine/mipssim.cc:659-678 | The loop with its early exit gives the exact product of the operands as unsigned numbers. |
| Multiply.Negate | nachos-3.4/code/machine/mipssim.cc:682-688 | The two's complement of a double word. |
| Multiply.Mult | nachos-3.4/code/machine/mipssim.cc:635-692 | hi:lo is the exact 64-bit product, signed or unsigned, for all operands, the most negative included. |
| Decoder.Decode | nachos-3.4/code/machine/mipssim.cc:589-626 | Every word decodes to an opcode other than RFE, SPECIAL and BCOND, registers below 32, shift counts below 32 and jump targets below 2^26. |
| Decoder.OpTable | nachos-3.4/code/machine/mipssim.h:117-138 | The first table: SPECIAL and BCOND only for 0 and 1, never RFE. |
| Decoder.SpecialTable | nachos-3.4/code/machine/mipssim.h:145-155 | The second table has none of RFE, SPECIAL and BCOND. |
| Decoder.ImmediateFields | nachos-3.4/code/machine/mipssim.cc:594-602 | The fields and the sign-extended immediate of a word are those it was put together from. |
| Decoder.RegisterFields | nachos-3.4/code/machine/mipssim.cc:594-604 | Likewise for a register-format word. |
| Decoder.JumpFields | nachos-3.4/code/machine/mipssim.cc:605-607 | Likewise for a jump-format word. |
| Decoder.DecodesByNumber | nachos-3.4/code/machine/mipssim.h:117-155 | A word decodes to an instruction exactly if it bears the number that bin/encode.h gives that instruction, in the field where that instruction has it. |
| Decoder.DecodesToUnimplemented | nachos-3.4/code/machine/mipssim.h:117-155 | It decodes to UNIMP exactly for the coprocessor numbers, the breakpoint and the unassigned conditions. |
| Decoder.DecodeEncoded | nachos-3.4/code/bin/encode.h:10-103 | Every instruction whose parts are in range, put together with those numbers, is a 32-bit word that decodes to itself. |
| Cpu.Execute | nachos-3.4/code/machine/mipssim.cc:123-553 | Every case assigns at most general registers, HI and LO, and asks memory for 1, 2 or 4 bytes; what each does is in Instructions. |
| Cpu.StopsExactly | nachos-3.4/code/machine/mipssim.cc:123-553 | The switch has a case for every opcode but RFE, SPECIAL and BCOND, and a case stops the simulator exactly for -2^31 / -1 and for unaligned LWL, LWR, SWL and SWR. |
| Cpu.StepStopsExactly | nachos-3.4/code/machine/mipssim.cc:93-553 | No word that can be fetched stops the machine but those. |
| Cpu.StepKeeps | nachos-3.4/code/machine/mipssim.cc:93-582 | After every step r0 is 0 and the pending-load register is in 0..31, and the load that was pending is done; after a trap none is pending. |
| Cpu.AppliedKeeps | nachos-3.4/code/machine/mipssim.cc:557-582 | Likewise for each case; a load is pending after an instruction that ran exactly if it was a load. |
| Cpu.InterruptKeeps | nachos-3.4/code/machine/interrupt.cc:323-326 | A device interrupt between instructions applies the pending load, once, and changes no other register. |
| Cpu.StepPrecise | nachos-3.4/code/machine/machine.cc:100-111 | An instruction that traps changes no memory and no dirty bit, and no register but BadVAddr, the load delay registers and the pending load's target. |
| Cpu.AppliedMoves | nachos-3.4/code/machine/mipssim.cc:560-564 | An instruction that runs moves PC to NextPC and NextPC to the computed address. |
| Cpu.FallsThrough | nachos-3.4/code/machine/mipssim.cc:117-119 | Only branches and jumps set the address after the delay slot. |
| Cpu.AddIsExact | nachos-3.4/code/machine/mipssim.cc:125-133 | ADD traps exactly when the sum is no 32-bit number, and else gives it. |
| Cpu.AddImmediateIsExact | nachos-3.4/code/machine/mipssim.cc:135-143 | ADDI likewise. |
| Cpu.SubtractIsExact | nachos-3.4/code/machine/mipssim.cc:457-465 | SUB likewise for the difference. |
| Cpu.LoadedMeans | nachos-3.4/code/machine/mipssim.cc:231-261 | LB, LBU, LH and LHU give the number in the range of their type that agrees with the bytes read. |
| Cpu.TopByteMeans | nachos-3.4/code/machine/mipssim.cc:311-343 | LWR at an aligned address replaces the lowest byte of the register by the highest byte of the word. |
| Cpu.MergedMeans | nachos-3.4/code/machine/mipssim.cc:477-532 | SWL at an aligned address replaces the word; SWR its highest byte by the lowest of the register. |
| Cpu.JumpStaysInRegion | nachos-3.4/code/machine/mipssim.cc:219-223 | J and JAL keep the top four bits of the address after the delay slot and set the rest to the target. |
| Cpu.OrIsRight | nachos-3.4/code/machine/mipssim.cc:375-377 | OR gives rs; it is rs OR rt exactly if rs has every bit of rt. |
| Cpu.OrCanBeWrong | nachos-3.4/code/machine/mipssim.cc:375-377 | A register state in which 0 OR 1 comes out as 0. |
| Cpu.SrlCanBeWrong | nachos-3.4/code/machine/mipssim.cc:445-455 | A register state in which SRL and SRLV of -1 by one give -1. |
| Cpu.DivideCanStop | nachos-3.4/code/machine/mipssim.cc:195-203 | A register state in which DIV faults on the host. |
| Cpu.SrlIsRight | nachos-3.4/code/machine/mipssim.cc:445-455 | SRL and SRLV are the logical shift exactly if rt is not negative or the count is 0. |
| Cpu.DivideIsExact | nachos-3.4/code/machine/mipssim.cc:195-203 | DIV gives quotient and remainder rounded towards zero, zeros for a zero divisor, and faults exactly for -2^31 / -1. |
| Machines.Processor.constructor | nachos-3.4/code/machine/machine.cc:55-76 | Registers and memory start at zero. |
| Machines.Processor.FindEntry | nachos-3.4/code/machine/translate.cc:211-234 | The index of the entry for the page, or the exception. |
| Machines.Processor.Translate | nachos-3.4/code/machine/translate.cc:186-255 | The physical address or the exception of the specification; sets the use bit, and the dirty bit of a write, of that entry only. |
| Machines.Processor.ReadMem | nachos-3.4/code/machine/translate.cc:87-122 | The value, or the exception raised with the address; memory changes only in the use bit. |
| Machines.Processor.WriteMem | nachos-3.4/code/machine/translate.cc:137-169 | Memory is that of the specification, or the exception is raised with the address. |
| Machines.Processor.DelayedLoad | nachos-3.4/code/machine/mipssim.cc:575-582 | Applies the pending load, sets the next one, and zeroes r0. |
| Machines.Processor.RaiseException | nachos-3.4/code/machine/machine.cc:100-107 | Sets BadVAddr and finishes the pending load. |
| Machines.Processor.Switch | nachos-3.4/code/machine/mipssim.cc:123-553 | The effect of the instruction, with products from the shift-and-add loop; what it means is in Instructions. |
| Machines.Processor.Perform | nachos-3.4/code/machine/mipssim.cc:555-565 | Registers, memory and table become those of the specification for the effect. |
| Machines.Processor.OneInstruction | nachos-3.4/code/machine/mipssim.cc:93-565 | One instruction in place is one step of the specification. |
| Instructions.StepIsFetchAndRun | nachos-3.4/code/machine/mipssim.cc:93-123 | A step fetches the word at PC through the translation, marks its page used, decodes and runs it; a failed fetch is the exception at PC, with nothing else changed. |
| Instructions.Branches | nachos-3.4/code/machine/mipssim.cc:161-193 | BEQ, BNE, BGTZ, BLEZ, BGEZ, BLTZ: the whole machine afterwards; taken, they go to the delay slot plus four times the offset, and else behind it. |
| Instructions.LinkingBranches | nachos-3.4/code/machine/mipssim.cc:166-188 | BGEZAL and BLTZAL: likewise, and r31 is set to the address behind the delay slot, taken or not, before rs is looked at. |
| Instructions.Jumps | nachos-3.4/code/machine/mipssim.cc:219-223 | J and JAL: the target is in the 2^28-byte region of the address behind the delay slot, at the word given; JAL sets r31. |
| Instructions.JumpsToRegister | nachos-3.4/code/machine/mipssim.cc:227-229 | JR goes to the address in rs and changes no data register. |
| Instructions.JumpsAndLinks | nachos-3.4/code/machine/mipssim.cc:225-229 | JALR sets rd to the address behind the delay slot and then goes to rs. |
| Instructions.CallsKernel | nachos-3.4/code/machine/mipssim.cc:534-549 | SYSCALL, reserved and unimplemented words raise their exception; the program counters and memory stay. |
| Instructions.AddsUnsigned | nachos-3.4/code/machine/mipssim.cc:145-469 | ADDU, SUBU, ADDIU put the sum or difference modulo 2^32 into their register and nothing else. |
| Instructions.AddsSigned | nachos-3.4/code/machine/mipssim.cc:125-465 | ADD, SUB, ADDI put the exact sum or difference into their register, or raise Overflow exactly if it is no 32-bit number. |
| Instructions.SetsIfLess | nachos-3.4/code/machine/mipssim.cc:404-434 | SLT and SLTI give 1 or 0 for the signed comparison, SLTU and SLTIU for the unsigned one. |
| Instructions.MovesFrom | nachos-3.4/code/machine/mipssim.cc:345-351 | MFHI and MFLO put HI and LO into rd. |
| Instructions.MovesTo | nachos-3.4/code/machine/mipssim.cc:353-359 | MTHI and MTLO put rs into HI and LO. |
| Instructions.Multiplies | nachos-3.4/code/machine/mipssim.cc:361-364 | After MULT, HI and LO are the halves of the signed product. |
| Instructions.MultipliesUnsigned | nachos-3.4/code/machine/mipssim.cc:366-369 | After MULTU, of the unsigned product. |
| Instructions.Divides | nachos-3.4/code/machine/mipssim.cc:195-203 | After DIV, x = LO y + HI with HI smaller than y and of the sign of x; both zero for y = 0; it stops the simulator for -2^31 / -1. |
| Instructions.DividesUnsigned | nachos-3.4/code/machine/mipssim.cc:205-217 | After DIVU the same for the unsigned numbers. |
| Instructions.Logicals | nachos-3.4/code/machine/mipssim.cc:153-544 | AND, ANDI, ORI, XOR, XORI, NOR: each of the 32 bits of the result; OR gives the bits of rs. |
| Instructions.ShiftsLeft | nachos-3.4/code/machine/mipssim.cc:395-402 | SLL and SLLV multiply rt by 2^n modulo 2^32. |
| Instructions.LoadsUpper | nachos-3.4/code/machine/mipssim.cc:263-266 | LUI puts the sixteen bits into the upper half of rt. |
| Instructions.ShiftsRight | nachos-3.4/code/machine/mipssim.cc:436-455 | SRA, SRAV, SRL, SRLV give the greatest number whose product with 2^n is not above rt. |
| Instructions.LoadsBytes | nachos-3.4/code/machine/mipssim.cc:231-278 | LB, LBU, LH, LHU, LW leave pending for rt the number of their type whose bytes are those at rs plus the offset, and mark the page used; a failed translation raises its exception with the address. |
| Instructions.StoresBytes | nachos-3.4/code/machine/mipssim.cc:383-475 | SB, SH, SW change exactly the 1, 2 or 4 bytes at rs plus the offset to the low ones of rt, and mark the page used and dirty. |
| Instructions.UnalignedStops | nachos-3.4/code/machine/mipssim.cc:280-532 | LWL, LWR, SWL, SWR stop the simulator at an unaligned address. |
| Instructions.LoadsWordLeft | nachos-3.4/code/machine/mipssim.cc:280-309 | LWL at an aligned address loads the word. |
| Instructions.LoadsWordRight | nachos-3.4/code/machine/mipssim.cc:311-343 | LWR at an aligned address loads rt, or what is pending for it, with its lowest byte replaced by the highest of the word. |
| Instructions.StoresWordPart | nachos-3.4/code/machine/mipssim.cc:477-532 | SWL at an aligned address writes rt; SWR replaces the highest byte of the word by the lowest of rt; both read the word first, also when the write is refused. |
| Translation.StaysInPage | nachos-3.4/code/machine/translate.cc:251-252 | An aligned access stays in its page and frame: the ASSERT on the physical address holds. |
| Translation.WriteIsFlat | nachos-3.4/code/machine/translate.cc:137-169 | With distinct frames, a successful write puts its bytes at the virtual addresses and changes no other virtual byte. |
| Translation.WriteKeepsDistinct | nachos-3.4/code/machine/translate.cc:137-169 | Frames stay distinct. |
| Translation.ReadIsFlat | nachos-3.4/code/machine/translate.cc:87-122 | A read's value is made of the bytes at the virtual addresses, and it changes none. |
| Translation.ReadBack | nachos-3.4/code/machine/translate.cc:87-169 | A write is read back modulo its size: a byte as a signed char, two bytes as an unsigned short. |
| Translation.TouchKeepsFrames | nachos-3.4/code/machine/translate.cc:248-250 | Setting use and dirty bits changes no translation. |
| Translation.TlbTranslatesAlike | nachos-3.4/code/machine/translate.cc:211-234 | On a hit, a TLB that repeats entries of the page table translates, or refuses, as the page table does. |
| Translation.FindsExactly | nachos-3.4/code/machine/translate.cc:211-234 | The entry found is that of the page in the page table, if valid, and in a TLB the first valid one that names the page, and it is found exactly then. |
| Translation.MissesExactly | nachos-3.4/code/machine/translate.cc:211-234 | A page beyond the page table is an address error; any other page without a valid entry is a page fault, and only those. |
| Translation.FailsExactly | nachos-3.4/code/machine/translate.cc:196-234 | A translation is an address error exactly if the address is misaligned or beyond the page table, and a page fault exactly if it is neither and no entry is for the page. |
| Translation.TranslatesThrough | nachos-3.4/code/machine/translate.cc:236-252 | Through an entry: read-only exactly for a write to a read-only page, else a bus error exactly for a frame outside memory, else the frame and the offset. |
| Translation.WordOrderIsHidden | nachos-3.4/code/machine/translate.cc:41-53 | Whatever the host's byte order, memory holds words with the lowest byte first. |
| Translation.ShortOrderIsHidden | nachos-3.4/code/machine/translate.cc:55-65 | Likewise for short words. |
| Paging.LoadKeeps | nachos-3.4/code/vm/vmManager.cc:154-168 | Loading a page into a clear frame keeps the invariant and the contents of every page. |
| Paging.EvictWritesBack | nachos-3.4/code/vm/vmManager.cc:173-190 | Evicting a victim that is clean or the faulting process's own leaves its contents in its slot. |
| Paging.SwapShape | nachos-3.4/code/vm/vmManager.cc:149-202 | A page fault, whoever the victim belongs to, leaves every page in memory in a frame of its own, and queued once. |
| Paging.SwapKeeps | nachos-3.4/code/vm/vmManager.cc:149-202 | A page fault brings the page in, changes the contents of no page, and keeps: clean equals slot, frames distinct, queue exactly the pages in memory. |
| Paging.FaultFailsExactly | nachos-3.4/code/vm/swapManager.cc:116-132 | The assertion at the end of writePage fails exactly for a dirty victim of another process whose page number the faulting process does not have. |
| Paging.WrongOwnerContents | nachos-3.4/code/vm/vmManager.cc:182-186 | All that evicting a dirty page of another process does to contents: the victim falls back to its slot, the slot of the faulting process's page of the same number gets what the victim held, that page has it at once if it is not in memory, and no other page changes. |
| Paging.ContentsKeptExactly | nachos-3.4/code/vm/vmManager.cc:182-186 | A fault keeps the contents of every page exactly if it evicts no dirty page of another process, or the victim held what its slot holds and the page that is written over is in memory or held the same. |
| Paging.InvKeptExactly | nachos-3.4/code/vm/vmManager.cc:182-186 | A fault leaves every clean page in memory equal to its slot exactly if it evicts no dirty page of another process, or the page whose slot is written over is not in memory, dirty, or held the same. |
| CrowdedMemory.OtherProcessLosesPage | nachos-3.4/code/vm/vmManager.cc:182-186 | A run from the start after which one process, by a fault of another, loses what it wrote and the other finds it in its own page. |
| Paging.Step | nachos-3.4/code/vm/vmManager.cc:117-202 | One AddPage or user access keeps the invariant. |
| Paging.StepContents | nachos-3.4/code/vm/vmManager.cc:117-202 | Only adding a page or writing to it changes contents. |
| Paging.RunRefines | nachos-3.4/code/vm/vmManager.cc:117-202 | Over any run in which no fault evicts a dirty page of another process paging is invisible: every page reads as in a flat store. |
| Paging.OneProcessIsSafe | nachos-3.4/code/vm/vmManager.cc:149-202 | With one process no fault evicts a dirty page of another, so every run is covered. |
| Paging.SafeIsPossible | nachos-3.4/code/vm/vmManager.cc:149-202 | Such a run meets no failed assertion. |
| Paging.JustUsedIsVictim | nachos-3.4/code/vm/lru.cc:122-172 | The page at the end of the queue is still the next victim after it is used. |
| Paging.VictimIsOldest | nachos-3.4/code/vm/lru.cc:56-172 | Over any run, safe or not, the next victim is the page that was loaded the longest ago: the queue is first in, first out. |
| Replacement.Queue.constructor | nachos-3.4/code/vm/lru.cc:6-11 | A new queue is empty. |
| Replacement.Queue.AddPage | nachos-3.4/code/vm/lru.cc:56-63 | The page goes to the front; the rest keeps its order. |
| Replacement.Queue.ReplaceHead | nachos-3.4/code/vm/lru.cc:122-164 | The walk ends without finding the new node, which becomes the head of well-linked nodes. |
| Replacement.Queue.Last | nachos-3.4/code/vm/lru.cc:170-172 | The page at the tail. |
| Replacement.Queue.RemoveLast | nachos-3.4/code/vm/lru.cc:110-116 | Drops the tail; the links of the rest stay right. |
| SwapFiles.SlotsCounted | nachos-3.4/code/vm/swapManager.cc:67-96 | As many slots are marked as there are pages. |
| SwapFiles.IndexedFree | nachos-3.4/code/vm/swapManager.cc:79-87 | A slot is clear exactly while there are fewer pages than slots. |
| SwapFiles.SwapManager.Search | nachos-3.4/code/vm/swapManager.cc:155-170 | The slot of the page or -1. |
| SwapFiles.SwapManager.FindPage | nachos-3.4/code/vm/swapManager.cc:149-176 | The contents of the page. |
| SwapFiles.SwapManager.WritePage | nachos-3.4/code/vm/swapManager.cc:116-131 | Replaces the contents of that page only. |
| SwapFiles.SwapManager.AddPage | nachos-3.4/code/vm/swapManager.cc:67-96 | Replaces or adds the page; fails exactly if it is new and every slot is taken. |
| VirtualMemory.VMManager.constructor | nachos-3.4/code/vm/vmManager.cc:7-21 | Nothing in memory, nothing in swap. |
| VirtualMemory.VMManager.AddPage | nachos-3.4/code/vm/vmManager.cc:117-120 | The page and its contents are in the swap file. |
| VirtualMemory.VMManager.Swap | nachos-3.4/code/vm/vmManager.cc:149-202 | For every state that a run can reach, safe or not: frames, frame bitmap, slots of the swap file, entries and linked queue become those of the specification. |
| PagedMemory.PagingIsDistinct | nachos-3.4/code/vm/vmManager.cc:149-202 | Paging never maps two pages of a process to one frame, which is what translation needs. |
| PagedMemory.VirtualIsLogical | nachos-3.4/code/machine/translate.cc:186-255 | The byte at a virtual address is the byte of its page. |
| PagedMemory.ExceptionsExactly | nachos-3.4/code/machine/translate.cc:186-245 | An access translates exactly if it is aligned, inside the page table, its page in memory and no store to a read-only page; it is a page fault exactly if only the page is missing, and then the page is in the swap file. |
| PagedMemory.FaultShows | nachos-3.4/code/vm/vmManager.cc:149-202 | After Swap the machine's page table and main memory, changed as the code changes them, show the state that paging is in, whoever the victim belongs to. |
| PagedMemory.StoreIsAccess | nachos-3.4/code/machine/translate.cc:137-169 | A user store is, for paging, a write of the page's new contents, and marks the entry dirty. |
| PagedMemory.DoIsFlat | nachos-3.4/code/vm/vmManager.cc:149-202 | A load or store, with the page fault it may cause, changes exactly the bytes that it stores. |
| PagedMemory.LoadReadsBytes | nachos-3.4/code/machine/translate.cc:87-122 | What a load reads, with the page fault it may cause, are the program's bytes, wherever they were. |
| PagedMemory.PagedMemoryIsFlat | nachos-3.4/code/vm/vmManager.cc:149-202 | End to end: after any run of loads and stores, with their page faults, in which no fault evicts a dirty page of another process, a load reads from the machine what it would read from a flat memory. |
| PagedMemory.OneProcessIsFlat | nachos-3.4/code/vm/vmManager.cc:149-202 | With the pages of one process only, this holds for every run of aligned accesses inside the page table that store to no read-only page, whatever the faults evict. |
| Packets.WireRoundTrip | nachos-3.4/code/machine/network.cc:76-78 | Splitting a packet gives back the packet header and the payload, whatever the padding. |
| Packets.PayloadRoundTrip | nachos-3.4/code/network/post.cc:233-244 | Splitting the payload gives back the letter, byte for byte. |
| PostOffices.PollKeeps | nachos-3.4/code/machine/network.cc:60-87 | The assertion on the packet read holds; what is buffered is the packet without its padding; letters stay in order. |
| PostOffices.ReceiveKeeps | nachos-3.4/code/network/post.cc:229-231 | The worker past the semaphore always finds a packet. |
| PostOffices.DeliverKeeps | nachos-3.4/code/network/post.cc:239-244 | The worker's two ASSERTs hold and the letter goes to its box. |
| PostOffices.StepKeeps | nachos-3.4/code/network/post.cc:221-316 | Every step keeps: each surviving letter is in one place, in order of sending, and a buffered packet is counted by the semaphore or by the worker it woke. |
| PostOffices.ReceivedInOrder | nachos-3.4/code/network/post.cc:221-316 | Over any run the letters received in a box from one machine are, byte for byte, a subsequence of those sent to it, in order. |
| PostOffices.AssertionsHold | nachos-3.4/code/machine/network.cc:60-87 | In every reachable state the assertions of CheckPktAvail and PostalDelivery hold, the worker past its P finds a packet, and the semaphore is at most 1. |
| PostOffices.PolledIsReceived | nachos-3.4/code/network/post.cc:229-231 | The packet that a poll reads is, byte for byte, what the next Receive hands out, with polls and other steps in between, also between the worker's P and its Receive. |
| PostOffices.Network.constructor | nachos-3.4/code/machine/network.cc:27-49 | No packet is buffered. |
| PostOffices.Network.CheckPktAvail | nachos-3.4/code/machine/network.cc:60-87 | Buffers the packet's header and data exactly if nothing is buffered; else changes nothing. |
| PostOffices.Network.Receive | nachos-3.4/code/machine/network.cc:130-139 | Hands out the buffered packet and empties the buffer. |
| PostOffices.Network.Send | nachos-3.4/code/machine/network.cc:103-127 | A full-size packet that begins with the header and the data. |
| PostOffices.Network.SendLetter | nachos-3.4/code/network/post.cc:261-284 | The packet of a letter is its wire form, with some padding. |

## Left out

- Indirect blocks and ExtendFile are unreachable in the FILESYS build and not modelled; the direct table has NumDirect entries, where the declared array has 4.
- The byte layout of file headers, the bitmap file and the directory file on disk: what is written back is what is fetched.
- OpenFiles.OpenFile.ReadAt: an access out of range is an outcome, here and in WriteAt, Read and Write, and what it does to memory is not modelled; the raw disk below is an array of sectors, its timing is in `Disks` and its locking in `SynchDisks`.
- Interrupts.Interrupt.OneTick: reports that the thread must yield instead of calling Yield, and a handler is the list of interrupts it schedules and whether it asks for a yield.
- KernelCode.Scheduler.Run: SWITCH, stacks and the copying of user registers are one atomic transfer of the processor; the processor does not come back in the middle of a method.
- KernelCode.Scheduler.TryP: is one round; the loop of P, which other threads run inside, is in `InterruptLevels`, as is that of Acquire.
- InterruptSafety.RoutinesRefineKernel: a handler is any number of calls of V, which is what the device handlers do to the kernel; a thread that runs outside the routines calls them or executes user instructions.
- Machines.Processor.Switch: the cases of the switch are a function that gives the assignments, load or store of the instruction, and these are then carried out in place; the kernel's exception handler is not part of it.
- LWL, LWR, SWL and SWR at unaligned addresses stop the simulator, as in the source.
- VirtualMemory.VMManager.Swap: keeps a frame as one value; that the bytes of main memory show it is `PagedMemory.FaultShows`.
- SwapFiles.SwapManager.AddPage: a failure is reported, where the source exits; after adding a new page the source falls off the end without a return, where the method returns true.
- SwapFiles.SwapManager.WritePage: the source reads the entry of a slot before it tests whether the slot is in use; the method tests first.
- Removing the pages of a process, the lower-case swap, fork's copies and kernel copies through ReadWrite are not modelled; their code is incomplete or ignores translation failures.
- PagedMemory.PagedMemoryIsFlat: is about one process at a time; what a context switch does to the page table is not modelled.
- PostOffices.ReceivedInOrder: models one receiving machine and any number of senders; the sender's wait for the sent interrupt is the handshake of `SynchDisks` again, the sockets are first-in-first-out, and all machines have the same number of boxes.
- Disks.Disk.ReadRequest: the clock and the interrupt queue are a parameter and a result.
- Process table, console, timer device, sockets, host files, debug output, and the programs in bin/ and test/ are not part of this model, but for the instruction numbers in bin/encode.h.
