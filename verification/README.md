# Verified core of the Pintos kernel and its robot warehouse

A Dafny model of the parts of this Pintos tree whose guarantees range over all runs, all
inputs or all machine words, with proofs of those guarantees. `dafny verify dfyconfig.toml`
checks the whole project. Where the code fails a property on some inputs, the code is modelled
as it is, the failing input is named, and the property is proved to hold exactly on the others.

## Parts

- **Warehouse** (`Warehouse`, `WarehousePath`, `WarehouseRound`, `WarehouseRun`). The planner
  is breadth-first search on arrays, proved against a definition of shortest walks that does
  not mention the search. A round is a plan by central control followed by turns of any subset
  of the robots in any order. A run is any sequence of rounds. Collision freedom holds in every
  state and after every turn. Bounded waiting is n rounds for n robots, and a
  round moves some robot exactly when one wants to move or can back away. Maps are arbitrary.
- **Threads and synchronisation** (`Synch`, `Threads`, `ThreadLives`, `Scheduler`,
  `SynchCalls`, `Semaphores`). Step machines:
  a step is a section with interrupts off, or one update made under a lock, and any other
  thread may run between any two steps. Semaphores, locks and condition variables are proved for every
  interleaving. The scheduler's queues and the timed sleep are proved over every run. The
  list-changing functions are methods of a class that keep the same invariants, and a semaphore
  class works on top of it.
- **64-bit division** (`Arithmetic`). Division built from a 64-by-32-bit instruction, with its
  trap as a precondition, over machine words with explicit wrap-around.
- **Containers and sorting** (`KernelList`, `ListMoves`, `RunOrder`, `ListSort`, `HashTable`,
  `Sorting`, `Bitmap`). Pointer lists on the heap, moves of elements from list to list, a stable
  in-place merge sort, a resizing hash table, heap sort with binary search, and bitmaps packed
  in words.
- **Allocators** (`Palloc`, `Arenas`, `ArenaSteps`, `Malloc`). Page pools over those bitmaps and
  the arena allocator over the pages, with byte addresses.
- **Files and archives** (`InodeIo`, `InodeTable`, `FileSystem`, `UstarText`, `Ustar`,
  `UstarBytes`).
  Sector-wise reads and writes against a flat array of bytes, the lifetimes of inodes, files and
  sectors, and the ustar header writer and reader of the POSIX.1-2001 pax utility.

`Prelude`, `Div`, `Bits` and `Ranges` hold shared definitions and arithmetic.

## Assumptions

- At most MAX_ROBOTS = 100 robots (automated_warehouse.c:23-34): the source's arrays hold no more.
  The model has no such bound.
- Runs of the thread machine start when thread_start returns (threads/thread.c:110-123): main
  runs, and the idle thread is blocked or, after a preemption, ready.
- Offsets into files are not negative. The source takes a signed `off_t` and tests the sign only in
  file_seek (filesys/file.c:157).
- Negation in `sdiv64` wraps (lib/arithmetic.c:145): for INT64_MIN / 1 the source negates INT64_MIN,
  which C leaves undefined.
- A warehouse round starts with every robot's message collected (the collection loop ends because
  all are ready) and robots finish their turns before the next plan. A robot that misses a
  wakeup takes no turn in that round, which is why any subset may take turns.
- Maps are rectangular, contain their entry and dock cells, and those are shared. Robots start
  unloaded at the waiting place.
- `ASSERT` in the source is a precondition where it constrains the caller and a proved fact
  where it does not. `PANIC` is outside the model.
- Outcomes of code outside the model are parameters: whether memory for a table, an inode, a file
  or a bounce buffer was available and at which address, whether the free map could be written,
  whether the root directory could be opened and a directory entry made.
- The comparison functions given to the containers are total functions that obey the laws their
  callers promise: a strict weak order for lists, a total preorder for arrays, hash and order in
  agreement for tables.

## Model

| member | source | states |
|---|---|---|
| Warehouse.IsBlockedCell | projects/automated_warehouse/automated_warehouse.c:248-285 | outside the map and walls are closed; a shared place A, B, C or W is open; the entry and a plain cell are open exactly when no robot is there; an item cell exactly when no robot is there and it shows the item this robot, unloaded, has to fetch |
| Warehouse.GetItemPosition | projects/automated_warehouse/automated_warehouse.c:296-311 | the first cell in row-major order that shows the item; the entry cell exactly when no cell shows it |
| Warehouse.DestinationPosition | projects/automated_warehouse/automated_warehouse.c:313-334 | the dock with the robot's letter, on a cell that shows it; the waiting place for any other letter |
| Warehouse.GetRobotTarget | projects/automated_warehouse/automated_warehouse.c:336-343 | an unloaded robot heads for the first cell that shows its item, the entry when none does; a loaded one for its dock, a cell that shows its letter |
| Warehouse.DefaultFloorValid | projects/automated_warehouse/aw_manager.c:15-23 | the shipped map meets every assumption made on maps and shows each of its seven items |
| WarehousePath.NoWalkBeats | projects/automated_warehouse/automated_warehouse.c:360-381 | once the queue is exhausted, every walk over enterable cells ends in a discovered cell and is at least as long as that cell's recorded distance |
| WarehousePath.ParentsSpellWalk | projects/automated_warehouse/automated_warehouse.c:414-426 | following parents from any discovered cell spells a walk of exactly its recorded distance |
| WarehousePath.SearchIsExact | projects/automated_warehouse/automated_warehouse.c:360-381 | the discovered cells are exactly the reachable ones, and a walk is a shortest one exactly when its length is the recorded distance |
| WarehousePath.NoWalkBeatsDistance | projects/automated_warehouse/automated_warehouse.c:487-499 | on a floor without obstacles no walk is shorter than the row and column distance |
| WarehousePath.WalkOfDistance | projects/automated_warehouse/automated_warehouse.c:487-499 | and some walk is as short |
| WarehousePath.QueueFitsMap | projects/automated_warehouse/automated_warehouse.c:352-363 | the queue never holds more than height times width cells, so its arrays are never overrun |
| WarehousePath.Explore | projects/automated_warehouse/automated_warehouse.c:352-381 | the search on the arrays and the parent matrix ends in an exhausted search, recorded cell by cell in the matrix |
| WarehousePath.VisitNeighbour | projects/automated_warehouse/automated_warehouse.c:366-380 | looking at one neighbour keeps the search invariant and the agreement of the matrix and the queue arrays with the search |
| WarehousePath.ChooseGoal | projects/automated_warehouse/automated_warehouse.c:383-412 | the target when it is reachable; otherwise the reachable cell nearest to it, first in row-major order, and the robot's own cell unless another is strictly nearer |
| WarehousePath.TracePath | projects/automated_warehouse/automated_warehouse.c:414-426 | the cells passed on the way back form a walk of the recorded distance, path indices stay in bounds, and the last cell kept is the walk's second cell |
| WarehousePath.GetNextDirection | projects/automated_warehouse/automated_warehouse.c:347-441 | on every map and placement, the first step of a shortest walk to the goal |
| WarehousePath.CommandEntersOpenCell | projects/automated_warehouse/automated_warehouse.c:347-441 | a planned move always enters a cell the robot may enter |
| WarehousePath.WaitsExactlyWhen | projects/automated_warehouse/automated_warehouse.c:383-441 | the planner waits exactly when the robot is at its target, or the target is out of reach and no reachable cell is strictly nearer |
| WarehouseRound.GetEscapeDirection | projects/automated_warehouse/automated_warehouse.c:443-485 | the best-scoring possible move that does not bring the robot nearer, lowest-numbered among equals; 0 exactly when there is none |
| WarehouseRound.EscapeMeans | projects/automated_warehouse/automated_warehouse.c:443-485 | the way out leads exactly one farther from the target, to a shared place before the entry before a plain cell before any other, lowest-numbered among equals; 0 exactly when every open neighbour is nearer |
| WarehouseRound.ComputeWishes | projects/automated_warehouse/automated_warehouse.c:119-147 | a robot wishes for nothing when done or sacrificed, and for the planner's command otherwise |
| WarehouseRound.WishLeads | projects/automated_warehouse/automated_warehouse.c:119-147 | the wish of a robot not done and not backing away is the first step of a shortest walk over cells it may enter, to the first cell of its item while unloaded and to its dock while loaded, wherever that can be reached; wait exactly when it is there |
| WarehouseRound.WishesAreEnterable | projects/automated_warehouse/automated_warehouse.c:594-602 | no wished-for cell holds a robot unless it is shared, so the test against robots not let through never refuses a wish |
| WarehouseRound.CanAcceptBatchMove | projects/automated_warehouse/automated_warehouse.c:561-606 | accepts exactly when the move touches no move let through so far |
| WarehouseRound.PickLongest | projects/automated_warehouse/automated_warehouse.c:153-164 | the longest-waiting robot not yet considered and not done, lowest number first; none exactly when none is left |
| WarehouseRound.ConsiderOne | projects/automated_warehouse/automated_warehouse.c:169-180 | the settled order of the batch survives one more decision |
| WarehouseRound.AcceptBatch | projects/automated_warehouse/automated_warehouse.c:152-181 | the loop computes the greedy batch defined without it: a robot that wants to move is let through exactly when its move touches no move let through of a robot ahead of it |
| WarehouseRound.BatchMeans | projects/automated_warehouse/automated_warehouse.c:152-181 | in cells and counters: let through exactly when it wants to move and the two cells of its move are none of those of a robot let through that has waited longer, or as long with a lower number |
| WarehouseRound.ChooseDeadlockVictim | projects/automated_warehouse/automated_warehouse.c:518-559 | the robot already backing away if it still can, else the longest-waiting one that can, with its best way out; none exactly when no robot can |
| WarehouseRound.VictimMeans | projects/automated_warehouse/automated_warehouse.c:518-559 | in cells and counters: none exactly when no unfinished robot has an open neighbour cell farther from its target; the last victim again if it still has one; else the one with the highest counter, lowest number first |
| WarehouseRound.CentralControl.BackAway | projects/automated_warehouse/automated_warehouse.c:187-210 | only the victim is told to move, and it is remembered |
| WarehouseRound.CentralControl.Age | projects/automated_warehouse/automated_warehouse.c:230-235 | counters return to 0 for robots let through or done and grow by one for all others |
| WarehouseRound.CentralControl.Round | projects/automated_warehouse/automated_warehouse.c:113-235 | one pass yields a plan of wishes, greedy batch or victim, commands and new counters, as specified for any number of robots |
| WarehouseRound.AllCompleted | projects/automated_warehouse/automated_warehouse.c:95-106 | the loop answers whether every robot is done and empty |
| WarehouseRun.RobotTurn | projects/automated_warehouse/automated_warehouse.c:611-683 | commands 1 to 4 lead up, down, left and right into exactly the cells that are open; an unfinished robot is finished afterwards exactly when it was loaded and then stands on its dock, and is then empty; unloaded and then on the cell of its item it has its load; otherwise its load is unchanged; its task and all other robots stay |
| WarehouseRun.TurnKeepsSafe | projects/automated_warehouse/automated_warehouse.c:611-628 | no single turn under any command puts a robot on a wall, on another's item cell or on an occupied cell that is not shared |
| WarehouseRun.PlansAreCompatible | projects/automated_warehouse/automated_warehouse.c:152-222 | the accepted moves of a plan, a victim's included, never touch a common cell and enter only cells open at planning time |
| WarehouseRun.RecheckPasses | projects/automated_warehouse/automated_warehouse.c:611-628 | whatever part of the round has been carried out, in whatever order, an accepted move not yet made passes its recheck |
| WarehouseRun.TurnsGoWhereSent | projects/automated_warehouse/automated_warehouse.c:611-683 | any subset of robots in any order: those that took their turns stand where they were sent, the others where they were |
| WarehouseRun.NoSwap | projects/automated_warehouse/automated_warehouse.c:561-606 | in such a partial round no two robots change places |
| WarehouseRun.RunsAreSafe | projects/automated_warehouse/automated_warehouse.c:60-244 | collision freedom in every state of every run from the start, for every map and number of robots |
| WarehouseRun.RunsNeverCollide | projects/automated_warehouse/automated_warehouse.c:60-244 | in every state of every run: on the map, off walls, on no item cell but the robot's own, and two robots in one cell only on A, B, C and W |
| WarehouseRun.RoundsAreSafeInside | projects/automated_warehouse/automated_warehouse.c:611-683 | collision freedom also after every single turn within a round of any run |
| WarehouseRun.RunsGoWhereSent | projects/automated_warehouse/automated_warehouse.c:212-241 | in every round of every run exactly the accepted commands of the robots that took turns have happened |
| WarehouseRun.RunsNeverSwap | projects/automated_warehouse/automated_warehouse.c:561-606 | in no round of any run do two robots change places |
| WarehouseRun.TasksOverRuns | projects/automated_warehouse/automated_warehouse.c:636-683 | over every run a robot is done exactly when some turn before took it, loaded, to its dock; until then it carries its load exactly when some turn before took it to the cell of its item; its task never changes |
| WarehouseRun.EndsExactlyWhenDelivered | projects/automated_warehouse/automated_warehouse.c:95-106 | the end condition holds exactly when every robot has delivered |
| WarehouseRun.LongestWaitingIsAccepted | projects/automated_warehouse/automated_warehouse.c:152-181 | the longest-waiting robot that wants to move is let through |
| WarehouseRun.DeadlockExactlyWhenAllWait | projects/automated_warehouse/automated_warehouse.c:187-210 | the deadlock branch runs exactly when every robot plans to wait |
| WarehouseRun.AcceptsExactlyWhen | projects/automated_warehouse/automated_warehouse.c:152-210 | a round tells some robot to move exactly when a robot plans to move or one that is not done can back away |
| WarehouseRun.PlanMeans | projects/automated_warehouse/automated_warehouse.c:119-235 | robot by robot: no wish when done or backing away; if any robot wishes to move the commands are the wishes let through and nobody backs away any more; if none does, only the robot that backs away from now on is told to move, and there is none exactly when no robot can; counters restart or grow by one |
| WarehouseRun.RunsMoveExactlyWhen | projects/automated_warehouse/automated_warehouse.c:113-241 | progress in every round of every run: once every robot has taken its turn, some robot stands elsewhere exactly when one planned to move or could back away |
| WarehouseRun.PassedOverFewTimes | projects/automated_warehouse/automated_warehouse.c:230-235 | among n robots, at most n - 1 rounds in a row pass over one that wants to move |
| WarehouseRun.BoundedWaiting | projects/automated_warehouse/automated_warehouse.c:152-235 | a robot that wants to move in n consecutive rounds of any run, from any round on, is accepted in one of them |
| Arithmetic.Divl | lib/arithmetic.c:25-37 | the instruction's quotient; its precondition is the absence of a trap |
| Arithmetic.Nlz | lib/arithmetic.c:41-73 | the step-by-step count is the number of leading zeros of every nonzero word |
| Arithmetic.LongDivision | lib/arithmetic.c:80-112 | the two-digit long division traps nowhere and composes to the quotient |
| Arithmetic.Normalised | lib/arithmetic.c:121-123 | shifting loses no bits, and the top word is the divisor with its low bits dropped |
| Arithmetic.DroppingLowBits | lib/arithmetic.c:121-124 | dividing by a divisor of at least 32 significant bits with lower bits dropped errs by at most one |
| Arithmetic.EstimateIsClose | lib/arithmetic.c:115-125 | the wide case never traps and its estimate is the quotient or one more |
| Arithmetic.EstimateBoundsAreTight | lib/arithmetic.c:121-124 | both bounds are reached: an estimate one too large, and a partial quotient that only just fits |
| Arithmetic.Udiv64 | lib/arithmetic.c:77-127 | exact floor of the quotient for every dividend and nonzero divisor of 64 bits |
| Arithmetic.Umod64 | lib/arithmetic.c:131-135 | the remainder cut to 32 bits; right exactly when it fits |
| Arithmetic.TowardZeroUnique | lib/arithmetic.c:139-146 | truncation toward zero, as section 6.5.5 of ISO/IEC 9899:1999 defines it, has one result |
| Arithmetic.Sdiv64 | lib/arithmetic.c:139-146 | truncates toward zero exactly for all inputs but INT64_MIN / -1, which gives INT64_MIN |
| Arithmetic.Smod64 | lib/arithmetic.c:150-154 | the 32-bit number congruent to the truncated remainder modulo 2^32; the remainder itself exactly when that fits |
| KernelList.List.Insert | lib/kernel/list.c:168-178 | the four link writes give a well-formed list with the element at its place |
| KernelList.List.Remove | lib/kernel/list.c:248-255 | a well-formed list without the element, and the element that followed |
| KernelList.List.Splice | lib/kernel/list.c:183-204 | within one list, the six link writes move a block in front of any element outside it, keep the list well-formed and change no other position |
| KernelList.ExchangedLinked | lib/kernel/list.c:183-204 | a list whose three border links are crossed is a well-formed list of the two blocks exchanged |
| ListMoves.SpliceAcross | lib/kernel/list.c:183-204 | between two lists, the same writes take the block out of one and put it in front of any element of the other: both well-formed in both directions, no element in both, nothing else moved |
| ListMoves.GraftedLinked | lib/kernel/list.c:199-203 | a list and a chain joined by the last four writes are one well-formed list |
| ListMoves.MoveToFront | lib/kernel/hash.c:406-408 | list_remove and list_push_front move one element between two well-formed lists |
| ListMoves.Scatter | lib/kernel/hash.c:397-409 | the inner loop of rehash on the links: the old bucket ends empty, each new bucket holds in front of its old elements exactly those that belong there, last first, and all lists stay well-formed and apart |
| ListMoves.SpreadConserves | lib/kernel/hash.c:397-409 | the move loses and doubles no element |
| ListSort.FindEndOfRun | lib/kernel/list.c:357-372 | the first position where the order drops, or the end |
| ListSort.InplaceMerge | lib/kernel/list.c:379-399 | the pointer loop computes the merge defined on sequences, in a well-formed list |
| ListSort.Pass | lib/kernel/list.c:420-435 | one pass merges adjacent runs pairwise and returns their number |
| ListSort.Sort | lib/kernel/list.c:404-440 | for every strict weak order: terminates with a well-formed list of the same nodes, in nondecreasing order, stable |
| RunOrder.MergedSorted | lib/kernel/list.c:374-399 | merging two nondecreasing runs gives one |
| RunOrder.MergedStable | lib/kernel/list.c:374-399 | a merge keeps the order of elements that are not less than each other |
| RunOrder.PassAchieves | lib/kernel/list.c:412-437 | a pass that leaves more than one run has strictly fewer descents than before; one that leaves one run is sorted |
| RunOrder.PassStable | lib/kernel/list.c:412-437 | a pass keeps stability with respect to the original list |
| RunOrder.PassElements | lib/kernel/list.c:412-437 | a pass keeps the nodes |
| Synch.StepKeepsSemas | threads/synch.c:60-121 | every step of every thread keeps the semaphore invariants |
| Synch.StepKeepsLock | threads/synch.c:192-236 | every step keeps each lock's holder, semaphore and occupant in agreement |
| Synch.StepKeepsCond | threads/synch.c:287-338 | every step, the two halves of a signal taken apart, keeps condition queues, waiters' semaphores, waiters' program points and signallers in agreement |
| Synch.StepKeepsFifo | threads/synch.c:287-338 | every step keeps the queue of a condition equal to its waiters so far without the ones signalled so far |
| Synch.RunsKeepInv | threads/synch.c:60-338 | all invariants hold in every state of every interleaving |
| Synch.SemaphoreLaws | threads/synch.c:60-121 | no lost wakeup: with waiters, the value is at most the number of threads unblocked and yet to test; value = initial + ups - completed downs |
| Synch.MutualExclusion | threads/synch.c:192-247 | in every interleaving at most one thread is between acquire's return and release, and it is the recorded holder |
| SynchCalls.AcquireReturns | threads/synch.c:192-201 | when lock_acquire returns, the caller is inside the lock and recorded as holder, whatever ran in between |
| SynchCalls.TryAcquireReturns | threads/synch.c:209-222 | lock_try_acquire does nothing where a thread owns the lock and returns inside it otherwise |
| SynchCalls.ReleaseReturns | threads/synch.c:229-237 | lock_release is out of the lock at once, and its last step takes the lock's value from 0 to 1 |
| SynchCalls.DownReturns | threads/synch.c:60-76 | the last step of sema_down finds a positive value and takes one unit |
| SynchCalls.TestBlocks | threads/synch.c:68-73 | a test that finds no unit leaves the thread blocked, last in the queue |
| SynchCalls.MayRun | threads/synch.c:60-338 | nothing but a semaphore holds a thread up: sema_up and sema_try_down may always run, a thread outside may make any call its locks allow, and one inside a call that is not blocked has a next step |
| SynchCalls.UnitsOverRuns | threads/synch.c:60-121 | counted over the steps of the run: value = first value + sema_ups - units taken |
| SynchCalls.FirstBlockedFirstUnblocked | threads/synch.c:60-121 | while a thread stays blocked on a semaphore, no thread that blocked on it later is unblocked |
| Synch.SignalTakesOldest | threads/synch.c:319-321 | the first half of a signal takes exactly the thread that has waited longest off the queue and changes no other thread and no semaphore |
| Synch.SignalPending | threads/synch.c:319-321 | whatever other threads do between the halves, the signal stays meant for that thread |
| Synch.SignalArrives | threads/synch.c:319-321 | the second half: wherever inside cond_wait that thread is by now, it is not left blocked, its semaphore goes from 0 to 1, and no third thread is touched |
| Synch.SignalWakesOldest | threads/synch.c:311-322 | the whole signal, over every interleaving between its halves, reaches exactly the thread that had waited longest when it began |
| SynchCalls.WaitReturns | threads/synch.c:287-303 | cond_wait keeps the lock until it is queued, is outside the lock while it waits, and returns inside it as its holder |
| SynchCalls.WaitWasSignalled | threads/synch.c:287-322 | cond_wait returns only after the signals on the condition have reached its caller's place among all that ever waited on it |
| SynchCalls.SignalOnNobody | threads/synch.c:319-321 | a signal that finds nobody queued changes nothing |
| Synch.BlockedOnlyUnsignalled | threads/synch.c:287-338 | no lost signal: a thread is blocked inside cond_wait only while it is queued or a thread between the halves of a signal is on its way to it |
| Synch.SignallerHoldsLock | threads/synch.c:311-322 | that thread is inside the lock, so there is one at most per condition, and the thread it signals is off the queue with its semaphore at 0 |
| Synch.DrainStep | threads/synch.c:287-338 | while a thread is inside the lock and does not wait itself, no step adds a waiter, and each signal takes exactly one |
| Synch.QueueOnlyDrains | threads/synch.c:324-338 | so over any stretch of any run the queue becomes a tail of itself: the loop of cond_broadcast ends and reaches every thread queued when it began, oldest first |
| Synch.EmptyQueueNobodyBlocked | threads/synch.c:324-338 | when a thread inside the lock finds the queue empty, no thread is blocked in a wait on the condition |
| Synch.EmptyQueueOneBlocked | threads/synch.c:319-321 | without the lock that fails: a run in which, between the halves of a signal, the queue is empty and its last thread still blocked |
| Semaphores.RunsAreMatched | threads/synch.c:60-121 | what the semaphore class keeps holds in every state of every interleaving |
| Semaphores.Semaphore.constructor | threads/synch.c:43-51 | a semaphore with its initial value and nobody waiting |
| Semaphores.Semaphore.Up | threads/synch.c:108-121 | on the scheduler's lists: the value grows by one, the thread that has waited longest is last on the ready list, the caller runs on, no other list changes, and every unit of value is still matched by an unblocked thread while others wait |
| Semaphores.Semaphore.TryDown | threads/synch.c:83-102 | takes a unit exactly when there is one, blocks nobody and keeps units and unblocked threads matched |
| Semaphores.Semaphore.TestDown | threads/synch.c:60-76 | one turn of the loop: exactly when the value is 0 the caller is the last waiter and the first ready thread runs, else it has a unit and runs on; no wakeup is lost |
| Scheduler.Scheduler.ThreadUnblock | threads/thread.c:236-248 | a thread blocked on no list becomes the last on the ready list; all other lists, and the other threads in that state, stay in order |
| Scheduler.Scheduler.BeginThread | threads/thread.c:170-204 | a thread being created is blocked on no list, and the queue invariants hold with it |
| Scheduler.Scheduler.LaunchThread | threads/thread.c:206-210 | it becomes the last on the ready list |
| Scheduler.Scheduler.Schedule | threads/thread.c:552-628 | once the running thread has left the processor, exactly one thread runs again: the first on the ready list, the idle thread when there is none; the invariants hold again |
| Scheduler.Scheduler.ThreadYield | threads/thread.c:363-377 | keeps the invariants; the first of the ready list with the caller at its end runs, the idle thread being on no list |
| Scheduler.Scheduler.ThreadExit | threads/thread.c:340-359 | keeps the invariants; the caller is dying and on no list, and the first ready thread runs |
| Scheduler.Scheduler.IdleBlock | threads/thread.c:450-461 | keeps the invariants; the idle thread is blocked on no list when another thread is ready, and the first ready thread runs |
| Scheduler.Scheduler.BlockOn | projects/automated_warehouse/aw_thread.c:22-34 | keeps the invariants; the caller is the last on the wait list, the first ready thread runs, no other list changes |
| Scheduler.Scheduler.UnblockAll | projects/automated_warehouse/aw_thread.c:40-56 | the drain loop makes the whole wait list ready in its order and keeps the invariants |
| Scheduler.Scheduler.PopFront | threads/synch.c:115-117 | the first of a wait list is the last on the ready list, and the invariants hold |
| Scheduler.Scheduler.ThreadSleep | threads/thread.c:264-281 | keeps the invariants; the caller is on the sleep list with its tick, the cached tick is the least of all sleepers', and the first ready thread runs |
| Scheduler.Scheduler.ThreadWakeup | threads/thread.c:283-305 | the loop that removes while it walks readies exactly the sleepers that are due, in their order, keeps the others in theirs, and leaves the cached tick at the least remaining one |
| Scheduler.Scheduler.TimerInterrupt | devices/timer.c:172-181 | the guarded wakeup readies exactly the sleepers due at the new tick, whatever the cached tick was, and keeps the invariants |
| Scheduler.ScanLoopIsScan | threads/thread.c:283-305 | walking and removing equals filtering |
| Threads.StepKeepsInv | threads/thread.c:170-377 | every step, the two halves of thread_create taken apart, keeps each thread's link in at most one queue and the queues in agreement with the thread states |
| Threads.StepKeepsTimer | threads/thread.c:250-305 | every step keeps the cached tick at the least wakeup tick in the sleep list, or INT64_MAX |
| Threads.TickIsFullScan | devices/timer.c:172-181 | on every tick the guarded handler does exactly what a full scan would do |
| Threads.RunsKeepInv | threads/thread.c:170-377 | in every reachable state each thread is in at most one queue, the ready list holds exactly the ready threads but the idle one, none twice; the cached tick is at most every sleeper's and is some sleeper's, or INT64_MAX |
| Threads.MovesUp | threads/thread.c:552-628 | a ready thread moves up one place with each call of schedule and only then |
| Threads.RunsInTurn | threads/thread.c:552-628 | the thread at position k of the ready list is dispatched by the (k+1)-th later call of schedule |
| Threads.SleepsUntilDue | threads/thread.c:264-305 | a sleeper sleeps on, with the same wakeup tick, as long as no timer interrupt has reached that tick |
| Threads.WakesWhenDue | devices/timer.c:172-181 | the first timer interrupt at or after its wakeup tick makes a sleeper ready |
| ThreadLives.NextRuns | threads/thread.c:218-377 | after every step of every run: a step that calls schedule runs the first ready thread, the caller being behind all others when it yields, and the idle thread when there is none; any other step changes nothing about who runs |
| ThreadLives.IdleStays | threads/thread.c:450-461 | the idle thread is on no list; after its own block it is blocked until it runs again |
| ThreadLives.DyingExactlyAfterExit | threads/thread.c:340-359 | over every run a thread is dying exactly when it has exited |
| ThreadLives.ExitedNeverRuns | threads/thread.c:340-359 | a thread that has exited is on no list and never runs again |
| ThreadLives.WaitsInLine | threads/thread.c:218-248 | a thread that blocks on a list is blocked on it until as many threads have been unblocked from it as were before it |
| ThreadLives.UnblockedInTurn | threads/thread.c:236-248 | the next unblocking makes it the last ready thread |
| ThreadLives.UnblockNobody | projects/automated_warehouse/aw_thread.c:40-56 | unblocking from an empty list changes nothing |
| ThreadLives.SleepsUntilTick | threads/thread.c:264-305 | a thread that sleeps until a tick is blocked until as many timer interrupts have come |
| ThreadLives.WakesOnTick | devices/timer.c:172-181 | the interrupt that brings the tick, or the first one after a tick already past, makes it ready |
| ThreadLives.NascentUntilLaunched | threads/thread.c:170-206 | a thread being created is blocked on no list until it is unblocked |
| ThreadLives.LaunchedIsReady | threads/thread.c:206-210 | and is then the last ready thread |
| HashTable.ComputeCount | lib/kernel/hash.c:364-372 | the loop that turns off low bits ends with a power of two, at least 4, at most half the elements unless it is 4, and more than a quarter of them |
| HashTable.BucketMeans | lib/kernel/hash.c:304-310 | with such a count the mask selects the bucket hash modulo count |
| HashTable.Hash.constructor | lib/kernel/hash.c:28-39 | an empty table that satisfies the table invariant |
| HashTable.HashInit | lib/kernel/hash.c:24-42 | hash_init gives such a table exactly when there is memory for its buckets, and fails otherwise |
| HashTable.Hash.FindElem | lib/kernel/hash.c:314-326 | the first element of the bucket equal to the one sought, by two comparisons |
| HashTable.Hash.Find | lib/kernel/hash.c:131-135 | an equal element of the table, none exactly when the table has none |
| HashTable.Hash.Insert | lib/kernel/hash.c:98-110 | adds the element exactly when no equal one is there; otherwise returns that one and changes nothing; with memory the bucket count fits the elements afterwards |
| HashTable.Hash.Replace | lib/kernel/hash.c:114-127 | the element is in the table afterwards, and an equal one before it is out and returned |
| HashTable.Hash.Delete | lib/kernel/hash.c:144-154 | takes out and returns the equal element; nothing changes exactly when there is none |
| HashTable.Hash.Rehash | lib/kernel/hash.c:351-413 | the same elements, each in the bucket of its hash under the new power-of-two count, and an exact element count; without memory, or with the right count already, the old buckets stay |
| HashTable.HashIterator.Next | lib/kernel/hash.c:218-235 | each call returns one element not yet returned, and none exactly when all have been |
| HashTable.VisitAll | lib/kernel/hash.c:199-235 | the iteration idiom visits every element of the table exactly once |
| Sorting.Heapify | lib/stdlib.c:96-123 | the loop on the array computes the sift defined on sequences |
| Sorting.SiftedPermutes | lib/stdlib.c:96-123 | a sift permutes the first cnt elements and keeps the others |
| Sorting.SiftedIsHeap | lib/stdlib.c:96-123 | it restores the heap from its start node on, for every total preorder |
| Sorting.RootIsLargest | lib/stdlib.c:145-151 | a heap's root is at least as large as every element |
| Sorting.Sort | lib/stdlib.c:131-152 | a sorted permutation of the array, for every total preorder |
| Sorting.BinarySearch | lib/stdlib.c:184-207 | on a sorted array finds a match exactly when there is one |
| Bitmap.OneBit | lib/kernel/bitmap.c:35-70 | changing one bit of one word changes that bit of the packed bitmap and no other |
| Bitmap.Bitmap.Mark | lib/kernel/bitmap.c:156-166 | one bit becomes true and no other changes |
| Bitmap.Bitmap.Reset | lib/kernel/bitmap.c:169-179 | one bit becomes false and no other changes |
| Bitmap.Bitmap.Test | lib/kernel/bitmap.c:197-203 | the value of the bit in the packed words |
| Bitmap.Bitmap.SetMultiple | lib/kernel/bitmap.c:217-228 | exactly the bits of the range take the value |
| Bitmap.Bitmap.Contains | lib/kernel/bitmap.c:250-263 | true exactly when a bit of the range has the value |
| Bitmap.Bitmap.Scan | lib/kernel/bitmap.c:295-310 | the lowest run of the length asked for; none exactly when there is no such run |
| Bitmap.Bitmap.ScanAndFlip | lib/kernel/bitmap.c:319-326 | that run is flipped and nothing else changes |
| Palloc.BitmapFits | threads/palloc.c:153-170 | a pool's bitmap fits the pages taken from the pool for it, for every pool size |
| Palloc.BitmapPagesLeast | threads/palloc.c:158-163 | no more pages are set aside than two words and one bit per page take |
| Palloc.Pool.constructor | threads/palloc.c:153-170 | bitmap pages and usable pages make up the pool, and no page is in use |
| Palloc.PageAllocator.constructor | threads/palloc.c:45-62 | the kernel pool starts at 1 MB and the user pool behind it, up to the end of memory; the user pool has half the pages or its limit |
| Palloc.PageAllocator.GetMultiple | threads/palloc.c:70-101 | the pages lie in the pool asked for and were not out; only they go out; failure exactly when none are asked for or no run is free |
| Palloc.PageAllocator.FreeMultiple | threads/palloc.c:117-142 | exactly those pages come back |
| Malloc.MallocInit | threads/malloc.c:71-85 | the loop makes the table that Malloc.DescsMean describes |
| Malloc.DescsMean | threads/malloc.c:71-85 | seven sizes, 16 bytes and doubling, with as many blocks of each as fit a page behind its 12-byte header |
| Arenas.BlockInPage | threads/malloc.c:266-294 | a block lies in its page behind the header, and rounding down finds its arena and its index |
| Arenas.LiveInPages | threads/malloc.c:89-154 | every block in use lies behind its arena's header and within its pages |
| Arenas.LiveApart | threads/malloc.c:89-154 | blocks in use never overlap |
| Arenas.AllFreed | threads/malloc.c:218-264 | with no block in use there is no arena and no free block: every page has gone back |
| Arenas.BigPagesFit | threads/malloc.c:105-120 | the page count of a large request covers it exactly when the request is not within 12 bytes of 2^32 |
| Arenas.BigPagesLeast | threads/malloc.c:109-110 | short of the wrap-around it takes no more pages than needed |
| Arenas.BigPagesTooFew | threads/malloc.c:109-110 | a request of 2^32 - 1 bytes is given one page |
| ArenaSteps.GrowKeeps | threads/malloc.c:125-146 | a new arena keeps the invariant: each block free or in use and not both, counts exact, arenas apart |
| ArenaSteps.TakeKeeps | threads/malloc.c:148-153 | taking the first free block keeps the invariant; every arena then has a block in use |
| ArenaSteps.PutKeeps | threads/malloc.c:236-242 | putting a block back keeps the invariant, and the count never passes the arena's number of blocks |
| ArenaSteps.DropKeeps | threads/malloc.c:242-253 | when the count is full no block of the arena is in use, and dropping the arena keeps the invariant |
| Malloc.Allocator.Malloc | threads/malloc.c:89-154 | a block not in use before, of the smallest size that serves the request; as large as asked for exactly unless within 12 bytes of 2^32; pages only for itself; null only for size 0, or when no free block serves it and no run of the pages needed is free |
| Malloc.Allocator.Free | threads/malloc.c:216-264 | the block goes out of use with its bytes overwritten, its arena's page comes back when nothing in it is in use, and every other block keeps its size and bytes |
| Malloc.Allocator.Realloc | threads/malloc.c:188-214 | the new block starts with the old one's bytes up to the shorter length; the old block goes exactly when a new one came or the size was 0; all other blocks keep their bytes; promised unless the copy runs past the new block, which a caller can tell from the two sizes |
| Malloc.CopyFitsExactly | threads/malloc.c:204-210 | the bytes copied fit the new large block exactly when the request is not within 12 bytes of 2^32 or the old block is at most a page less a header |
| InodeIo.ByteToSector | filesys/inode.c:46-54 | the sector that holds the byte, within the file's sectors; -1 exactly beyond the end |
| InodeIo.SectorsNeeded | filesys/inode.c:23-29 | a file of that many bytes has as many sectors of 512 bytes as it needs and no more |
| InodeIo.ReadAt | filesys/inode.c:197-250 | exactly min(size, max(0, length - offset)) bytes of the file's contents come to the front of the buffer and the rest of the buffer stays; without memory for a bounce buffer, the whole sectors of an aligned request |
| InodeIo.WriteAt | filesys/inode.c:252-318 | the same count of bytes goes to its place and every other byte of the device stays; nothing while writes are denied |
| InodeIo.ReadAfterWrite | filesys/inode.c:197-318 | after a write the file is the old file with the bytes in place: reading there gives back what was written |
| InodeIo.OtherFilesKept | filesys/inode.c:252-318 | a write leaves the contents of a file in other sectors |
| InodeTable.RefDropped | filesys/inode.c:160-186 | dropping a reference keeps open and deny counts exact; with the last one no file denies writes |
| InodeTable.RefToFile | filesys/file.c:17-34 | a file that takes over a reference keeps the counts exact |
| InodeTable.FlagMoved | filesys/file.c:116-141 | setting or clearing a file's deny flag moves the inode's count by one, between 0 and the number of openers, so the assertions in inode_deny_write and inode_allow_write hold |
| FileSystem.FileTable.FreeMapAllocate | filesys/free-map.c:27-41 | a free run is taken and nothing else, taken back when the map cannot be written; otherwise failure means that no run is free |
| FileSystem.FileTable.FreeMapRelease | filesys/free-map.c:43-50 | exactly those sectors come free |
| FileSystem.FileTable.InodeCreate | filesys/inode.c:67-106 | a new file on sectors that were free; on failure nothing changes, and with memory and a writable map it fails only where no run is free |
| FileSystem.FileTable.Create | filesys/filesys.c:45-59 | on success the file owns new sectors only; on failure, the root directory not opening included, no file changes, and sectors stay in use without an owner only where the directory entry failed, and then just those of the new file's data; with nothing failing outside, it fails only for want of a free sector or of a run for the data |
| FileSystem.FileTable.InodeOpen | filesys/inode.c:108-142 | one inode in memory per sector: the one that is there, with one opener more, or a new one |
| FileSystem.FileTable.InodeReopen | filesys/inode.c:144-151 | one opener more |
| FileSystem.FileTable.InodeRemove | filesys/inode.c:188-195 | marks the inode and frees nothing |
| FileSystem.FileTable.InodeClose | filesys/inode.c:160-186 | the inode leaves memory with its last opener; a removed file's sectors come free exactly then |
| FileSystem.FileTable.FileOpen | filesys/file.c:17-34 | the new file takes over the reference; on failure the reference is closed |
| FileSystem.FileTable.FileReopen | filesys/file.c:36-42 | a new file on the same inode with its own deny flag off; on failure nothing changes |
| FileSystem.FileTable.FileClose | filesys/file.c:44-54 | the file, its hold on writes and its reference are gone; sectors come free as for its inode |
| FileSystem.FileTable.FileDenyWrite | filesys/file.c:116-127 | counted once per file, however often it is called |
| FileSystem.FileTable.FileAllowWrite | filesys/file.c:129-141 | takes back exactly this file's hold |
| FileSystem.NoSharedSector | filesys/inode.c:67-195 | two different inodes in memory, removed or not, own no sector in common |
| FileSystem.WriteStaysInFile | filesys/inode.c:252-318 | so what a write through one inode does changes the contents of no file another inode in memory stands for |
| FileSystem.OpenKeepsSectors | filesys/inode.c:160-195 | while an inode is in memory, removed or not, its file's sectors are in use |
| FileSystem.DeniedExactlyWhen | filesys/inode.c:320-338 | writes are denied exactly while some file that has the inode open denies them |
| FileSystem.EveryInodeHasOpener | filesys/inode.c:160-186 | every inode in memory has an opener |
| UstarText.StripAntisocialPrefixes | lib/ustar.c:56-73 | the loop computes the stripping defined by recursion |
| UstarText.StripSafe | lib/ustar.c:56-73 | a stripped name is not empty, is not ".." and starts with none of "/", "./" and "../" |
| UstarText.StripIsTail | lib/ustar.c:56-73 | it is "." or a tail of the name, from its start or from behind a slash |
| UstarText.StripIdempotent | lib/ustar.c:56-73 | stripping twice is stripping once |
| UstarBytes.StripMeans | lib/ustar.c:56-73 | "/", "./" and "../" are dropped from the front and nothing else; a name with none of them, not empty and not "..", is unchanged; what is left of nothing or ".." is "." |
| UstarText.ParseOctalField | lib/ustar.c:120-162 | the loop computes the reading defined by recursion, with overflow, empty field and bad characters refused |
| UstarText.OctalBack | lib/ustar.c:102-162 | a printed octal field reads back as its number |
| UstarBytes.ParseOctalMeans | lib/ustar.c:120-162 | a field reads as v exactly when it is octal digits, at least one, closed by a space or a null byte, of positional value v at most 2^32 - 1 |
| Ustar.CalculateChksum | lib/ustar.c:35-54 | the sum of all bytes with the chksum field taken as spaces |
| Ustar.SumChanged | lib/ustar.c:35-54 | every byte outside the chksum field counts |
| UstarBytes.ChksumMeans | lib/ustar.c:35-54 | an empty record sums to eight spaces, and each byte outside bytes 148 to 155 adds itself |
| Ustar.PackedField | lib/ustar.c:10-33 | each field of the packed record is where it was put |
| Ustar.MakeHeader | lib/ustar.c:75-118 | fails exactly where the stripped name is longer than 99 bytes and leaves the record, and fills it otherwise |
| UstarBytes.MadeBytes | lib/ustar.c:96-113 | byte by byte: mode 0000644 or 0000755, user and group 0000000, the time, flag 0 or 5 at byte 156, ustar, null and 00 at bytes 257 to 264, root twice |
| UstarBytes.MadeNumbers | lib/ustar.c:96-115 | the name and null bytes; eleven octal digits of the size as an unsigned number at byte 124; seven of the record's checksum at byte 148 |
| Ustar.ParseHeader | lib/ustar.c:175-227 | the checks in their order give the meaning that UstarBytes.ParseMeans and UstarBytes.FaultsMean describe |
| UstarBytes.ParseMeans | lib/ustar.c:175-227 | an entry exactly when magic, version, checksum and the ends of the names are in order and byte 156 is 5, or is 0 with a size that fits an int; regular exactly for 0, a directory of size 0 exactly for 5; end of archive exactly for 512 null bytes |
| UstarBytes.FaultsMean | lib/ustar.c:193-218 | each error message exactly when its check is the first to fail, at the bytes the format fixes |
| Ustar.RoundTrip | lib/ustar.c:75-227 | reading a made header gives back the stripped name, the type and the size, 0 for a directory; exactly a regular file of negative size does not come back and reads as too large |
| Ustar.DamageNoticed | lib/ustar.c:199-207 | changing any one byte outside the chksum field of any accepted header is an error |
| Ustar.ChksumDamage | lib/ustar.c:199-207 | inside the chksum field a change is an error exactly when it changes the field's value; otherwise the header means what it meant |
| Ustar.ChksumTerminator | lib/ustar.c:114-115 | such a change exists in every made header that is accepted: its closing null byte may become a space |

## Left out

- Drivers, boot code, interrupt entry, context switch and thread page layout: hardware only.
- Whole-simulation progress of the warehouse (every robot finishes): the victim heuristic does not decide it.
- The 100-iteration timeout of message collection and robot state read while a robot moves: excluded by the round assumption.
- Message boxes (`aw_message.c`) and argument parsing: the round starts from collected messages.
- Printing: `print_map`, the console, `printf` except octal digits, `hex_dump`.
- KernelList.List.Splice: a block of the same list; ListMoves.SpliceAcross has the block of another list.
- HashTable.Hash.Rehash: buckets are sequences there; ListMoves.Scatter has the move of one bucket on the links, the loop over all buckets is only on sequences.
- `list_reverse`, `list_unique`, `list_insert_ordered`, `list_max`, `list_min`: easier than the sort.
- Sorting.Sort: elements are values; the byte-wise exchange of elements of a given size is not modelled.
- `cond_broadcast` as a step of its own: it is its signals, two steps each.
- Ready queues ordered by priority and the multilevel scheduler: stubs in the source.
- Time slices: `thread_tick` forces a yield, which may happen at any step of the model anyway.
- Scheduler.Scheduler.ThreadWakeup: states the resulting lists, states and cached tick, not the interleaving of link updates inside the loop.
- `hash_clear`, `hash_apply` and the hash functions themselves: the table works for any hash function.
- Malloc.Allocator.Malloc: requests within 12 bytes of 2^32 get a block smaller than asked for, as in the source; the exact condition is part of the contract.
- Malloc.Allocator.Realloc: promises nothing where the bytes copied run past the new block, since what they overwrite is not modelled; Malloc.CopyFitsExactly gives the exact condition for large blocks.
- The bytes the allocators write into headers and free blocks (list links, magic numbers), `PAL_ZERO` and `calloc`'s product: no block in use contains them.
- Palloc.PageAllocator.FreeMultiple: pages are numbered, so a null page pointer has no counterpart.
- Remainders wider than 32 bits in `umod64` and `smod64`: the return types cut them, which the contracts state.
- FileSystem.FileTable.Create: sectors are not conserved where the directory entry fails after the inode was made, as in the source; the contract names the case.
- `inode_create` zeroing the data sectors, reading the free map back from disk, the free map's own file: contents, not ownership.
- The directory layer, user programs, file positions, partitions and block devices other than whole-sector reads and writes.
- UstarText.Octal: prints exactly n digits; the source's numbers never need more.
