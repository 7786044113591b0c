# OS/161 kernel and runtime: verified models

Dafny models of the parts of the OS/161 kernel and its C runtime whose correctness is hard to see
from the code, with proofs of what they are for. `dafny verify dfyconfig.toml` checks everything.

- **64-bit arithmetic out of 32-bit words** (`Bits`, `Digits`, `LongLong`, `Division`, `QDivRem`,
  `SignedDivision`, `Multiply`). Knuth's Algorithm D and a Karatsuba-style product, in base 2^h for
  every half-word width h, on the arrays and wrapped words the C code uses.
- **The kernel heap** (`HeapMemory`, `HeapPage`, `HeapBlocks`, `Heap`, `HeapCheck`, `KernelHeap`,
  `PageRefs`, `HeapInstall`, `HeapSystem`, `HeapPool`, `Kmalloc`, `HeapLife`). Free chains threaded
  through bytes of memory, guard bands, labels, the pageref bitmap, and any number of threads
  interleaving at the points where the spinlock is dropped.
- **Threads** (`Scheduler`, `RunQueues`, `LoadBalance`, `Spl`, `ThreadList`). Context switch, wakeup, exit,
  idling and migration on any number of processors; interrupt levels and spinlocks, with the run-queue
  lock handed from one thread to the next; the linked list underneath.
- **Synchronisation** (`Semaphore`, `LockCv`) and **the air-balloon protocol** (`Balloon`, `BalloonSwaps`,
  `BalloonMoves`, `BalloonEnd`).
- **Process ids** (`PidSearch`, `PidTable`, `PidRuns`): allocation, exit and wait over every run.
- **exec arguments** (`CopyInOut`, `Argv`, `ArgvCases`), **open files** (`OpenFiles`, `FileCalls`) and
  **printf/atoi** (`Numerals`, `Atoi`, `Printf`, `PrintfMeaning`).

Code that updates data in place is written as methods and classes; protocols between threads are state
machines whose steps are the stretches of code no other thread can see inside of, and their results
hold at every point of every run (`Run`, `Reachable`). `Basics` has what several models share.

Seven properties one would expect turned out not to hold. The code is modelled as it is, with an input
or run for which it fails and the exact condition under which it does what was expected:

- `kmalloc` gives less than was asked for when rounding the size up to whole pages overflows
  (`Kmalloc.RequestFits`, `Kmalloc.HugeRequestWraps`).
- `freepageref` can fail its own assertion after a root has lost all its pagerefs to refused
  allocations (`HeapPool.ReleaseOkIff`, `HeapPool.ReleaseCanFail`).
- `execv` refuses a valid argument list with EFAULT when some of its first arguments fill the small
  buffer exactly and more follow (`Argv.ArgBuf.FromUser`, `ArgvCases.ExactFill`).
- `execv` panics on an argument list below ARG_MAX whose pointers do not fit the stack as well; a
  comment in dumbvm promises that ARG_MAX fits (`Argv.CopyOut`, `ArgvCases.TooManyArguments`).
- A FlowerKiller swap keeps ropes and stakes matched only if the mapping it read before locking still
  holds, which it does not check again (`BalloonSwaps.MappingIff`, `BalloonSwaps.StaleForked`).
- `airballoon` destroys print_lock while threads may still have their last line to print
  (`BalloonEnd.PrintLockSafeIff`, `BalloonEnd.DestroyedWhenForked`).
- `%-0Nd` fills on the right with zeros, where section 7.19.6.1 of ISO C99 has `-` override `0`; such a
  field does not read back (`Printf.AtoiOfPrintf`, `Atoi.LeftZeroFill`).

In the descriptions below B is 2^h, the base of the division's digits; a `long long` has four of them.

## Model

| member | source | states |
|---|---|---|
| Bits.CombineIsTwoDigits | common/gcc-millicode/qdivrem.c:48 | COMBINE of two digits, done with shifts and a bitwise OR, is the number a*B + b and fits an unsigned int |
| Digits.ShlValue | common/gcc-millicode/qdivrem.c:270-279 | shifting a digit sequence left multiplies its value by 2^sh; what is pushed off the left are exactly the high bits of the first digit |
| Digits.ShrValue | common/gcc-millicode/qdivrem.c:248-254 | shifting right divides the value by 2^d, losing exactly the low d bits of the last digit |
| Division.EstimateDigit | common/gcc-millicode/qdivrem.c:193-210 | step D3 finds the three-by-two digit quotient capped at B-1, with at most two corrections when the divisor is normalised |
| Division.EstimateIsClose | common/gcc-millicode/qdivrem.c:185-210 | the corrected estimate is the true quotient digit or exactly one more |
| Division.BorrowIsExact | common/gcc-millicode/qdivrem.c:217-221 | the wrapped word t of one subtraction step carries exactly the true borrow, which is below B |
| Division.SubtractWindowValue | common/gcc-millicode/qdivrem.c:217-223 | step D4 computes the window minus qhat times the divisor exactly, modulo B^(n+1), with the final borrow telling whether it went negative |
| Division.MultiplySubtract | common/gcc-millicode/qdivrem.c:217-223 | the in-place loop of D4 changes only the window, to what SubtractWindow says |
| Division.AddWindowValue | common/gcc-millicode/qdivrem.c:231-237 | step D6 adds the divisor to the window exactly, dropping one carry out of the top |
| Division.AddBack | common/gcc-millicode/qdivrem.c:231-237 | the in-place loop of D6 changes only the window, to what AddWindow says |
| Division.StepDivides | common/gcc-millicode/qdivrem.c:185-239 | a borrow happens exactly when qhat was too big, and after at most one add-back the window is the remainder: window = q*v + rest with 0 <= rest < v and q a digit |
| Division.DivideDigit | common/gcc-millicode/qdivrem.c:193-239 | one turn of the quotient loop in place: the digit and remainder of dividing the window, everything outside the window unchanged |
| QDivRem.LoadDigits | common/gcc-millicode/qdivrem.c:112-122 | the four half-words of a long long are its base-B digits |
| QDivRem.ShortDivide | common/gcc-millicode/qdivrem.c:124-149 | the one-digit path returns q and r with u = q*t + r and r < t |
| QDivRem.ShiftDigits | common/gcc-millicode/qdivrem.c:270-279 | shl in place equals the sequence shift Shl and writes len+1 digits |
| QDivRem.NormalShift | common/gcc-millicode/qdivrem.c:169-171 | D1 finds the shift that brings the top digit to at least B/2 without overflowing it |
| QDivRem.Normalise | common/gcc-millicode/qdivrem.c:169-175 | dividend and divisor are both multiplied by the same 2^d, with no bit lost |
| QDivRem.DivideLoop | common/gcc-millicode/qdivrem.c:176-240 | the whole quotient loop: dividend = quotient * divisor + what is left in u, which is below the divisor |
| QDivRem.Remainder | common/gcc-millicode/qdivrem.c:247-258 | unshifting and reading back gives the remainder of the unscaled division |
| QDivRem.DivRem | common/gcc-millicode/qdivrem.c:67-263 | for every dividend and non-zero divisor the result is u / v and, if asked for, u % v; the divide trap happens exactly for v = 0 |
| SignedDivision.TruncIsC99 | common/gcc-millicode/divdi3.c:40-62 | truncated quotient and remainder are the only pair section 6.5.5 of ISO C99 allows |
| SignedDivision.Divide | common/gcc-millicode/divdi3.c:44-62 | the signed quotient truncates toward zero modulo 2^(4h), and is the exact quotient except for the most negative number over -1 |
| SignedDivision.Modulo | common/gcc-millicode/moddi3.c:45-62 | the remainder takes the dividend's sign, for every dividend and non-zero divisor |
| Multiply.LongProduct | common/gcc-millicode/muldi3.c:183-241 | __lmulq returns the exact double-word product of any two words |
| Multiply.Assemble | common/gcc-millicode/muldi3.c:214-240 | the shifted additions and the signed middle term, with their carry and borrow tests, lose nothing |
| Multiply.SignedMiddle | common/gcc-millicode/muldi3.c:202-212 | the product of differences has the sign the code tracks |
| Multiply.MagnitudeProduct | common/gcc-millicode/muldi3.c:124-158 | the product of two magnitudes modulo 2^(4h), with the small-operand shortcut |
| Multiply.Multiply | common/gcc-millicode/muldi3.c:99-164 | __muldi3 is a*b modulo 2^(4h) in two's complement, and a*b itself when that fits |
| HeapMemory.FillDeadbeef | kern/vm/kmalloc.c:43-53 | every byte of the range is the right byte of 0xdeadbeef and nothing else changes |
| HeapMemory.EstablishGuardBand | kern/vm/kmalloc.c:368-396 | the guards and recorded sizes are in place, every client byte is 0xa9 and every spare byte 0xba, and only the block changed |
| HeapMemory.EstablishLabel | kern/vm/kmalloc.c:625-636 | the label takes the first eight client bytes and the pointer moves past it |
| HeapMemory.CheckGuardBand | kern/vm/kmalloc.c:401-436 | the assertions pass exactly when both guards, both sizes, the size class and the fill are right |
| HeapMemory.ClientWriteKeepsGuards | kern/vm/kmalloc.c:340-436 | a client that writes one of its own bytes leaves the guard bands intact |
| HeapPage.BlockType | kern/vm/kmalloc.c:851-867 | the smallest size class that fits, or the panic exactly above the largest |
| HeapPage.PabRoundTrip | kern/vm/kmalloc.c:154-156 | page address and block type share a word and are both recovered from it |
| HeapPage.BlockCount | kern/vm/kmalloc.c:493-568 | free plus live blocks are all the blocks of the page |
| HeapBlocks.PopBlock | kern/vm/kmalloc.c:918-951 | the head of the free chain is handed out, guarded and labelled, and the page invariant holds for the rest |
| HeapBlocks.PushBlock | kern/vm/kmalloc.c:1086-1132 | a live block is checked, filled with 0xdeadbeef and linked in at the head, and the page invariant holds |
| HeapCheck.CheckDeadbeef | kern/vm/kmalloc.c:460-470 | passes exactly when everything after the link word is 0xdeadbeef |
| HeapCheck.CheckChain | kern/vm/kmalloc.c:534-556 | the walk passes exactly on a whole, acyclic chain of nfree filled blocks, and marks exactly those blocks |
| HeapCheck.CheckGuards | kern/vm/kmalloc.c:558-567 | passes exactly when every block not marked has intact guard bands of its class |
| HeapCheck.CheckSubpage | kern/vm/kmalloc.c:493-568 | passes exactly on the pages for which the page invariant holds with some chain and recorded sizes; a page marked full passes whenever its count is zero |
| HeapCheck.GoodAccepted | kern/vm/kmalloc.c:493-568 | a page that satisfies the invariant is accepted |
| HeapBlocks.InitPage | kern/vm/kmalloc.c:972-1006 | a fresh page becomes one chain of all its blocks |
| Heap.LiveBlocksDisjoint | kern/vm/kmalloc.c:873-1006 | any two live blocks are disjoint, inside their page, aligned to their size and large enough |
| Heap.ListsAgree | kern/vm/kmalloc.c:578-603 | the per-size lists together are as long as the list of all pages |
| Heap.RemoveFromOk | kern/vm/kmalloc.c:822-845 | remove_lists takes out that pageref and only that one |
| Heap.AllocKeeps | kern/vm/kmalloc.c:918-952 | handing out a block keeps the heap invariant |
| Heap.FreeKeeps | kern/vm/kmalloc.c:1086-1145 | taking back a block keeps the heap invariant |
| Heap.DropKeeps | kern/vm/kmalloc.c:1134-1142 | dropping a page with its last live block keeps the heap invariant |
| Heap.NewPageKeeps | kern/vm/kmalloc.c:987-1015 | installing a fresh page keeps the heap invariant |
| Heap.WriteKeeps | kern/vm/kmalloc.c:340-436 | a client writing its own bytes keeps the heap invariant |
| KernelHeap.Kmalloc.CheckSubpages | kern/vm/kmalloc.c:578-603 | its assertions hold exactly when every listed page is accepted, the lists are no longer than there are pagerefs and their lengths agree |
| KernelHeap.GoodHeapPasses | kern/vm/kmalloc.c:578-603 | so none fires on a heap that satisfies the invariant |
| KernelHeap.Kmalloc.TryAlloc | kern/vm/kmalloc.c:908-953 | takes a block from the first page of the right class that has one, or reports that none of that class has a free block and changes nothing |
| KernelHeap.Kmalloc.AddPage | kern/vm/kmalloc.c:972-1016 | installs the page on both lists and hands out its first block |
| KernelHeap.Kmalloc.SubpageKfree | kern/vm/kmalloc.c:1022-1154 | for every pointer: refused exactly when it is not on a heap page or cannot be a subpage pointer, a panic exactly when it is on one but names no live block, and nothing changes in either case; otherwise the live block it names is freed, and the page returned exactly when that was its last live block |
| KernelHeap.Kmalloc.FindBlock | kern/vm/kmalloc.c:1086-1097 | the alignment test and the guard check together pass exactly at the start of a live block |
| KernelHeap.GuardsTell | kern/vm/kmalloc.c:1093-1097 | in a good heap the guard check passes on live blocks and fails on free ones |
| KernelHeap.Unlink | kern/vm/kmalloc.c:822-845 | one list walk of remove_lists equals removal from the sequence |
| KernelHeap.ClientOffsets | kern/vm/kmalloc.c:1037-1060 | a subpage pointer is never page aligned, before or after taking off the guard offset, and its block is on its page |
| PageRefs.FindClear | kern/vm/kmalloc.c:271-295 | the nested loops over words and bits find the lowest clear bit and the assertion after them is unreachable |
| PageRefs.Pool.Reserve | kern/vm/kmalloc.c:256-301 | marks the lowest free pageref of the first root that is not full; fails exactly when every root is |
| PageRefs.Pool.Release | kern/vm/kmalloc.c:303-337 | clears exactly that pageref; its assertions pass exactly when no earlier root without a page has pagerefs in use |
| Kmalloc.PlanRequest | kern/vm/kmalloc.c:1163-1200 | the plan leaves the client the bytes it asked for if and only if rounding up to pages does not overflow; it is then a block exactly when request, label and guards are below the largest class, of the smallest class that holds request, label and guards, and pages are as few as will do |
| Kmalloc.RequestFits | kern/vm/kmalloc.c:1163-1200 | a request gets its bytes if and only if it is at most 2^32 - 4096; a subpage block is then the smallest class that holds it |
| Kmalloc.HugeRequestWraps | kern/vm/kmalloc.c:1179-1186 | two sizes for which the arithmetic wraps |
| Kmalloc.FreeUndoesAlloc | kern/vm/kmalloc.c:873-1154 | freeing a block straight after it was handed out restores the heap byte for byte, whatever the client wrote in it |
| Kmalloc.DropUndoesNewPage | kern/vm/kmalloc.c:960-1154 | when the block came from a page added for it, freeing it gives the page back: lists, pagerefs, chains and sizes are as before, and memory is the same outside that page |
| Kmalloc.FreeUndoesInstall | kern/vm/kmalloc.c:873-1154 | the same for the whole system: also the pagerefs in use, the owner of every page and the state of every thread are as before |
| Kmalloc.FreeUndoesAttach | kern/vm/kmalloc.c:218-301 | when a page of pagerefs had to be got as well, it stays with its root and everything else is as before |
| Kmalloc.BigFreeUndoesAlloc | kern/vm/kmalloc.c:1179-1216 | freeing a whole-page allocation straight after restores the system exactly |
| HeapInstall.CanInstall | kern/vm/kmalloc.c:960-1016 | for every heap, unused number and page that is no heap page, the steps that add the page and hand out its last block exist |
| HeapSystem.InstallReady | kern/vm/kmalloc.c:964-1012 | when a thread retakes the lock, its page is nobody's heap page and its pageref nobody's, whatever others did meanwhile |
| HeapSystem.StepKeeps | kern/vm/kmalloc.c:908-1016 | every step of any thread, across the dropped locks, keeps the system invariant |
| HeapSystem.AlwaysOk | kern/vm/kmalloc.c:873-1154 | the heap, page-ownership and pageref invariants hold in every reachable state |
| HeapSystem.AllocationsDisjoint | kern/vm/kmalloc.c:873-1154 | in every reachable state a live block overlaps no other block, no whole-page allocation and no page still being set up |
| HeapSystem.NothingLeaks | kern/vm/kmalloc.c:218-337 | with no thread inside, every page obtained is a heap page with a live block, a pageref page or part of a big allocation, and every pageref in use is a heap page's unless an allocation was refused |
| HeapSystem.PagesCounted | kern/vm/kmalloc.c:584-600 | in every reachable state there are at most TOTAL_PAGEREFS heap pages, so checksubpages' count assertions hold |
| HeapLife.BytesStay | kern/vm/kmalloc.c:873-1154 | over every run, until a block is freed it stays handed out in its place with its size, and every byte of it holds what its holder last wrote there or what was there before, whatever other threads allocate, free or write |
| HeapLife.RequestMet | kern/vm/kmalloc.c:960-1016 | over every run, a kmalloc that finds no free block comes back, whatever others do meanwhile, with a new block of the class and recorded size it was called for, or without one and with the heap untouched |
| HeapPool.FirstFreeIsLowest | kern/vm/kmalloc.c:256-301 | the lowest number not in use is the one the scan of roots and bitmaps finds |
| HeapPool.PoolKeeps | kern/vm/kmalloc.c:218-337 | from root arrays that stand for the numbers in use, what the code does to them in any step leaves root arrays that do so again |
| HeapPool.PoolRun | kern/vm/kmalloc.c:218-337 | so at every point of every run |
| HeapPool.ReleaseReady | kern/vm/kmalloc.c:303-337 | what freepageref relies on holds when it is called: its pageref is marked, its root has a page, root pages are aligned and distinct |
| HeapPool.ReleaseOkIff | kern/vm/kmalloc.c:312-319 | freepageref's assertion on the root arrays holds if and only if no earlier root without a page has a reserved or lost pageref |
| HeapPool.ReleaseSafe | kern/vm/kmalloc.c:218-337 | in every run in which no page of pagerefs was ever refused, it holds whenever no thread is getting one |
| HeapPool.NeverStuck | kern/vm/kmalloc.c:873-1154 | in every reachable state a thread inside the allocator can take its next step, whatever the others did while it did not hold the lock |
| HeapPool.ReleaseCanFail | kern/vm/kmalloc.c:281-319 | a reachable state with one live block on a page whose kfree is due and trips that assertion |
| Scheduler.StepKeeps | kern/thread/thread.c:561-768 | every step of every processor keeps the scheduler invariant |
| Scheduler.OnePlace | kern/thread/thread.c:561-768 | at every point of every run each thread is in exactly one place, once, and current on at most one processor |
| Scheduler.QueuedThreads | kern/thread/thread.c:451-483 | a queued thread has t_cpu equal to its queue's processor and is S_READY; it is current only there, and only while that processor has not left its stack |
| Scheduler.ReapIsSafe | kern/thread/thread.c:279-290 | exorcise's assertions hold and the zombie is current on no processor |
| Scheduler.DestroyedAfterLeaving | kern/thread/thread.c:246-290 | a thread is destroyed only as a zombie and after every processor has left its stack |
| Scheduler.MigrationConserves | kern/thread/thread.c:852-955 | a step of migration keeps which threads are queued and everything about the others |
| Scheduler.MigrationSafe | kern/thread/thread.c:877-955 | migration never takes from an empty list, and its private list is empty when it ends |
| Scheduler.HandOver | kern/thread/thread.c:884-941 | the thread handed over is current nowhere, and the target queue does not exceed the share computed before, which LoadBalance ties to the queue lengths counted |
| LoadBalance.TakesSurplus | kern/thread/thread.c:858-887 | over every run, a migration takes off its own queue exactly what exceeded one share of the lengths it had counted, one share being the least k with k times the number of processors no less than their sum; nothing when it had no more than that, and never more on the way |
| LoadBalance.FillsToShare | kern/thread/thread.c:889-941 | over every run, a queue a migration makes longer is another processor's, grows by one thread, and with L threads then has (L - 1) times the number of processors below the sum of the lengths counted |
| LoadBalance.OffersAll | kern/thread/thread.c:889-941 | over every run, a migration that stops sending with threads left over has had every other processor's queue locked and left none with less than one share of what it had counted |
| RunQueues.RoundRobin | kern/thread/thread.c:561-650 | round robin, as schedule's comment promises: over every run, a thread with k others in front of it that stays on its run queue is the next one run exactly when that processor has picked k threads since |
| RunQueues.ChannelOrder | kern/thread/thread.c:1033-1108 | over every run, a thread goes to sleep behind all others on its channel, a wakeup takes off exactly the longest sleeper, and nothing else changes a channel |
| RunQueues.BornHere | kern/thread/thread.c:490-545 | over every run, a new thread belongs to the processor it was forked on |
| RunQueues.StaysHome | kern/thread/thread.c:889-941 | over every run, a thread's processor changes only when that processor migrates it |
| Spl.StepKeeps | kern/thread/spinlock.c:74-134 | every spl call, spinlock access, context switch and interrupt keeps the accounting invariant |
| Spl.CountsAgree | kern/thread/spl.c:86-160 | at every point of every run the running thread's count is its level plus the releases it owes, c_spinlocks matches the locks held or being acquired, and interrupts are on exactly when the count is zero (or in cpu_idle's window) |
| Spl.SwitchedOut | kern/thread/thread.c:535-540 | a thread that is not running, new or switched out, has its level high and owes exactly one release |
| Spl.SwitchCounts | kern/thread/thread.c:645-728 | the run-queue lock taken by the outgoing thread is the release the incoming one owes |
| Spl.InterruptAssertions | kern/arch/mips/locore/trap.c:160-208 | the assertions at interrupt entry and exit hold |
| Spl.SpinlockExclusion | kern/thread/spinlock.c:74-148 | at most one processor holds a spinlock, and splk_holder names it exactly then |
| Spl.AcquireHolds | kern/thread/spinlock.c:74-112 | over every run, spinlock_acquire returns with the lock it was called for held as well, word and holder set, and no other lock gained or lost on the way |
| Spl.ReleaseFrees | kern/thread/spinlock.c:117-134 | over every run, spinlock_release gives up that lock and no other; its word stays taken until the last write of the call and is free after |
| ThreadList.ThreadList.IsEmpty | kern/thread/threadlist.c:91-97 | the count is zero exactly when no node is linked between the bookends |
| ThreadList.ThreadList.InsertAfter | kern/thread/threadlist.c:105-140 | the node goes in at that position and all links stay consistent |
| ThreadList.ThreadList.RemoveNode | kern/thread/threadlist.c:145-157 | the node comes out, unlinked, and all links stay consistent |
| ThreadList.ThreadList.AddHead | kern/thread/threadlist.c:162-170 | the members are the new thread followed by the old members |
| ThreadList.ThreadList.AddTail | kern/thread/threadlist.c:172-180 | the members are the old members followed by the new thread |
| ThreadList.ThreadList.RemHead | kern/thread/threadlist.c:182-198 | returns and removes the first member; nothing exactly when the list is empty |
| ThreadList.ThreadList.RemTail | kern/thread/threadlist.c:200-216 | returns and removes the last member; nothing exactly when the list is empty |
| Semaphore.StepKeeps | kern/thread/synch.c:88-135 | every attempt in P and every V keeps the semaphore invariant |
| Semaphore.Conservation | kern/thread/synch.c:88-135 | at every point of every run the count is the initial one plus the Vs among the steps so far minus the Ps that have returned, and while a thread sleeps at least count woken threads are on their way |
| Semaphore.PassesIff | kern/thread/synch.c:88-135 | in every run, a thread in P returns exactly when it finds the count positive and else queues up last; V wakes exactly the thread queued longest and disturbs no other |
| LockCv.StepKeeps | kern/thread/synch.c:182-303 | every lock and condition-variable step keeps the invariant |
| LockCv.MutualExclusion | kern/thread/synch.c:182-209 | at most one thread is inside the lock, and a free lock with sleepers has a woken contender |
| LockCv.AcquireReturnsLocked | kern/thread/synch.c:182-199 | in every run, lock_acquire lets its caller go only as the lock's holder, at a moment when the lock was free |
| LockCv.HeldUntilReleased | kern/thread/synch.c:182-219 | in every run, whoever has the lock has it until its own lock_release or cv_wait |
| LockCv.LockQueue | kern/thread/synch.c:186-219 | in every run, a release frees the lock and wakes exactly the longest sleeper; a thread that finds the lock held queues up last |
| LockCv.WaitIsAtomic | kern/thread/synch.c:269-303 | when a signal or broadcast takes effect, every thread that gave up the lock to wait is on the channel; broadcast wakes all of them, signal the longest sleeper |
| LockCv.CvQueue | kern/thread/synch.c:269-303 | in every run, a waiter sleeps behind all others on its channel; cv_signal wakes exactly the longest sleeper and cv_broadcast all, of that channel only, and nothing else wakes one |
| LockCv.WakesEveryone | kern/thread/thread.c:1080-1108 | wchan_wakeall empties the channel and wakes exactly the threads on it |
| LockCv.WaitReturnsLocked | kern/thread/synch.c:269-303 | in every run, a thread that gave up the lock in cv_wait comes out of cv_wait only as the lock's holder, and only after a signal or broadcast on that condition variable since |
| PidTable.PidTable.constructor | kern/proc/pid.c:126-148 | the table starts with the kernel process alone |
| PidTable.PidTable.FindFree | kern/proc/pid.c:253-260 | stops at the first pid in cyclic order whose slot is free, and the turn-count assertion never fires |
| PidSearch.DistanceStep | kern/proc/pid.c:217-227 | for any number of slots and range of pids, each increment comes one closer to any given slot, across the wrap-around |
| PidSearch.SearchReaches | kern/proc/pid.c:249-260 | from every pid every slot is reached within the asserted number of turns if and only if there are at least as many pids as slots |
| PidTable.PidTable.PidAlloc | kern/proc/pid.c:232-280 | EAGAIN exactly when full, ENOMEM when no entry can be made, otherwise an in-range pid no entry has |
| PidTable.PidTable.PidUnalloc | kern/proc/pid.c:286-308 | the entry goes away and the count stays right |
| PidTable.PidTable.PidDisown | kern/proc/pid.c:314-332 | the entry is orphaned, or goes away if the child is dead |
| PidTable.PidTable.SetExitStatus | kern/proc/pid.c:343-384 | every child is disowned, dead ones dropped, and the caller's entry records the status or goes away |
| PidTable.ExitMeans | kern/proc/pid.c:343-384 | pid by pid: dead children's entries go, living ones are orphaned, the caller's own takes the status or goes if it has no parent, and every other stays as it is |
| PidTable.PidTable.Wait | kern/proc/pid.c:392-445 | each error, WNOHANG's zero, sleeping or immediate delivery if and only if the entries of the table say so, as PidTable.WaitAnswers spells out |
| PidTable.WaitAnswers | kern/proc/pid.c:392-445 | every outcome as an if-and-only-if on the table's entries: EINVAL, ENOSYS, ESRCH, EPERM, the status of a dead child, nothing yet, or sleep |
| PidTable.PidTable.Collect | kern/proc/pid.c:445-464 | delivers the entry's status and removes the entry |
| PidRuns.StepKeeps | kern/proc/pid.c:286-465 | every step keeps the process-table invariant |
| PidRuns.ParentsAreReal | kern/proc/pid.c:286-465 | a parent pid always names the live process that forked the child, despite pid reuse; no entry is both exited and orphaned |
| PidRuns.ResumeIsSafe | kern/proc/pid.c:433-446 | a waiter has been woken exactly when its child is dead, and then the entry it kept is still that child's with the child's status |
| PidRuns.DeliveredOnce | kern/proc/pid.c:343-464 | a status goes to the parent, is the one the child set, and is delivered once |
| PidRuns.WaitOutcomes | kern/proc/pid.c:392-464 | in every run, pid_wait sleeps only for a living child of the caller and only without WNOHANG, delivers at once only for a dead one, and else only when pid is no child or WNOHANG was given for a living one; WNOHANG never adds a waiter |
| Balloon.StepKeeps | kern/synchprobs/airballoon.c:62-269 | every step of any thread keeps the protocol invariant |
| Balloon.RopesLeft | kern/synchprobs/airballoon.c:62-269 | ropes_left is the uncut ropes plus cuts not yet counted; whoever has escaped or finished did so after every rope was cut |
| Balloon.BroadcastDue | kern/synchprobs/airballoon.c:71-79 | while a balloon sleeps no cutter has left its loop; and if no rope is left there is a cutter, still due to broadcast |
| Balloon.SeveredOnce | kern/synchprobs/airballoon.c:82-98 | each rope is severed at most once and stays on its stake from then on |
| Balloon.NoDeadlock | kern/synchprobs/airballoon.c:205-225 | no cycle of threads each waiting for a lock the next holds |
| Balloon.Progress | kern/synchprobs/airballoon.c:62-269 | at every point of every run that has a cutter, either every thread is out of its loop or some thread can take a step |
| BalloonSwaps.MappingKept | kern/synchprobs/airballoon.c:184-217 | in every run in which each swapper that goes on to write still finds its ropes on the stakes it read, ropes and stakes match whenever nobody is writing, however the writes interleave |
| BalloonSwaps.MappingIff | kern/synchprobs/airballoon.c:184-217 | after a swapper goes on to write, ropes and stakes match at the next point where nobody is writing if and only if it still found its ropes there |
| BalloonSwaps.StaleRun | kern/synchprobs/airballoon.c:184-217 | for any threads of which two are swappers, a run that ends with one rope on two stakes |
| BalloonSwaps.StaleForked | kern/synchprobs/airballoon.c:372-389 | such a run of the eleven threads airballoon forks |
| BalloonMoves.CutsChosen | kern/synchprobs/airballoon.c:128-146 | in every run, a cutter severs the rope it chose (Marigold: the one she saw on her stake) if and only if it is not severed yet and, for Marigold, still on that stake by stake_to_rope; no other rope is severed or moved |
| BalloonMoves.SwapsChosen | kern/synchprobs/airballoon.c:180-217 | in every run without stale swaps, a finished swap has put the rope read on the first stake onto the second and the one read on the second onto the first, in both arrays |
| BalloonMoves.LeavesIff | kern/synchprobs/airballoon.c:170-176 | in every run, a thread that looks at ropes_left is through with its loop exactly when none is left |
| BalloonEnd.EndKeeps | kern/synchprobs/airballoon.c:53-405 | every step of a thread or of main, from the starting line to the end, keeps the invariant of the ending |
| BalloonEnd.CleanupWaits | kern/synchprobs/airballoon.c:391-403 | once main is past its wait every thread has left its loop and no lock but print_lock is held or will be taken again; main does not sleep through the last report |
| BalloonEnd.PrintLockSafeIff | kern/synchprobs/airballoon.c:230-236 | after main destroys the locks, print_lock is never used again in any continuation of the run if and only if every thread had finished its last line |
| BalloonEnd.DestroyedTooSoon | kern/synchprobs/airballoon.c:230-236 | for any threads of which one is a cutter, a run in which main destroys the locks while every thread is about to take print_lock |
| BalloonEnd.DestroyedWhenForked | kern/synchprobs/airballoon.c:372-403 | such a run of the eleven threads airballoon forks |
| CopyInOut.CopyCheck | kern/vm/copyinout.c:116-143 | in 32-bit arithmetic, accepts exactly the non-empty regions that start in user space and do not wrap, and the empty one at address 0; what may be touched is the whole region or ends where user space does |
| CopyInOut.CopyStr | kern/vm/copyinout.c:233-255 | copies the string and its NUL, or fails with EFAULT or ENAMETOOLONG exactly as Scan says |
| CopyInOut.CopyInStr | kern/vm/copyinout.c:265-290 | succeeds if and only if the region does not wrap and a string lies there that fits it and user space; ENAMETOOLONG exactly when the region is in user space and full of mapped non-NUL bytes; touches only its part of the buffer |
| CopyInOut.ScanFinds | kern/vm/copyinout.c:233-255 | the scan succeeds with s exactly when s is the string there and fits both limits |
| CopyInOut.ScanGivesUp | kern/vm/copyinout.c:233-255 | it fails with ENAMETOOLONG exactly when the room, not user space, ran out on mapped bytes without a NUL, and else with EFAULT |
| CopyInOut.UserSpace.CopyOutWord | kern/vm/copyinout.c:188-215 | succeeds exactly on mapped words below user space's end and changes only that word |
| CopyInOut.UserSpace.CopyOutStr | kern/vm/copyinout.c:298-321 | succeeds exactly when there is a NUL in range and the string fits mapped user memory; ENAMETOOLONG exactly when there is none and all of the range could be written; changes only those bytes |
| Argv.ArgBuf.CopyIn | kern/syscall/runprogram.c:155-194 | on success the buffer packs exactly the list the user's argv decodes to; an argv in user space succeeds, or fails with E2BIG or EFAULT, exactly as its lengths and the buffer size decide |
| Argv.ArgBuf.FromUser | kern/syscall/runprogram.c:199-232 | an argv in user space succeeds or fails with ENOMEM, EFAULT or E2BIG exactly as its lengths and the memory available decide; with memory it is taken if and only if its strings fit ARG_MAX and no proper prefix fills the small buffer exactly; the throttle is held exactly when tooksem says so |
| ArgvCases.SomeArgv | kern/syscall/runprogram.c:155-194 | every list of strings that fits user space is the argv of some user memory |
| ArgvCases.ExactFill | kern/syscall/runprogram.c:179-186 | user memory with an argv far below ARG_MAX that is refused with EFAULT |
| Argv.ArgBuf.Cleanup | kern/syscall/runprogram.c:100-113 | the throttle is given back exactly when it was taken |
| Argv.CopyOut | kern/syscall/runprogram.c:240-305 | succeeds if and only if the stack for strings and pointers is mapped and in user space; then the stack holds an aligned argv array for exactly that list, below its strings and below the old stack pointer, and nothing else changes |
| ArgvCases.RoomOnStack | kern/syscall/runprogram.c:258-265 | from the top of user space there is room if and only if the strings, rounded up to words, and the pointers with their NULL fit the stack |
| ArgvCases.TooManyArguments | kern/arch/mips/vm/dumbvm.c:57-59 | an argv below ARG_MAX that exec takes in and dumbvm's stack has no room for |
| Argv.NoWrap | kern/syscall/runprogram.c:258-263 | the stack arithmetic cannot have wrapped if the first pointer could be stored |
| Argv.OneReading | kern/syscall/runprogram.c:155-194 | an argv array in memory decodes to one list only |
| Argv.PassArguments | kern/syscall/runprogram.c:526-584 | what the new program decodes is what the old one passed, and the throttle is back where it was; an argv in user space gets there if and only if it is taken in and the new stack has room |
| OpenFiles.StepKeeps | kern/syscall/openfile.c:122-149 | every step of open, close, dup2, fork and exit keeps the reference-count invariant |
| OpenFiles.LastReference | kern/syscall/openfile.c:134-149 | the count is one exactly when the reference being dropped is the only one |
| OpenFiles.CountsAreReferences | kern/syscall/openfile.c:122-149 | at every point of every run each count is the number of slots and in-flight references naming the file |
| OpenFiles.ClosedOnce | kern/syscall/openfile.c:82-91 | a vnode is closed at most once, and exactly after the last reference is gone |
| OpenFiles.DescriptorStays | kern/syscall/filetable.c:201-237 | over every run, a descriptor stands for the same open file until its own process closes it or puts another over it |
| OpenFiles.ReferenceFrom | kern/syscall/filetable.c:99-237 | over every run, where each new reference comes from: a descriptor from the call that was handed the file, at the lowest free number unless dup2 chose it, or from the parent's same number |
| FileCalls.Kernel.Place | kern/syscall/filetable.c:200-215 | the lowest free descriptor; EMFILE exactly when the table is full |
| FileCalls.Kernel.SysOpen | kern/syscall/file_syscalls.c:93-105 | places the file or closes it again, leaving no reference behind |
| FileCalls.Kernel.SysClose | kern/syscall/file_syscalls.c:201-225 | EBADF exactly when not open; the slot is empty and no other table changes |
| FileCalls.Kernel.SysDup2 | kern/syscall/file_syscalls.c:294-334 | the new descriptor names the old one's file; EBADF in exactly its cases; nothing else changes |
| FileCalls.Kernel.Fork | kern/syscall/filetable.c:98-127 | the child's table equals the parent's |
| FileCalls.Kernel.Exit | kern/syscall/filetable.c:66-82 | the table is empty and no other one changes |
| Numerals.PrintDigits | common/libc/printf/__printf.c:414-467 | the digit loop leaves the numeral in front of its NUL and never runs off the 23-byte buffer |
| Numerals.FitsBuffer | common/libc/printf/__printf.c:76-84 | any 64-bit value in base 8, 10 or 16 leaves room for the NUL |
| Numerals.NumeralDecodes | common/libc/printf/__printf.c:434-456 | a numeral decodes to its number in its base |
| Numerals.NumeralDigits | common/libc/printf/__printf.c:434-456 | a numeral is made of digits of its base, the first one zero only for zero |
| Atoi.ParseInt | common/libc/stdlib/atoi.c:49-101 | the value AtoiValue gives the string, which AtoiReads and AtoiSplits determine for every string |
| Atoi.AtoiReads | common/libc/stdlib/atoi.c:49-101 | spaces and tabs, an optional sign, digits and anything after them give the int equal to the signed number modulo 2^32, zero without digits |
| Atoi.AtoiSplits | common/libc/stdlib/atoi.c:49-101 | every string has those four parts |
| Atoi.FieldWidth | common/libc/printf/__printf.c:366-407 | a field is as wide as asked, or as its text if that is longer |
| Atoi.ReadsBackIff | common/libc/printf/__printf.c:366-407 | a decimal field reads back as its int if and only if it is not a non-zero number filled on the right with zeros |
| Atoi.LeftZeroFill | common/libc/printf/__printf.c:403-406 | a concrete field that does not read back |
| Printf.WithinIs | common/libc/printf/__printf.c:497-565 | taking a field character by character means the same as taking its modifiers together |
| Printf.Pf.PrintStuff | common/libc/printf/__printf.c:366-407 | sends exactly the padded field |
| Printf.Pf.SendChar | common/libc/printf/__printf.c:497-565 | what has been sent plus what the rest of the format means stays the same |
| Printf.Snp.Send | common/libc/printf/snprintf.c:73-94 | stores the first characters sent, as many as there is room for |
| Printf.Vprintf | common/libc/printf/__printf.c:570-592 | sends exactly what the format means and returns its length; what a format means is determined by PrintfMeaning |
| Printf.Vsnprintf | common/libc/printf/snprintf.c:98-142 | returns the full length; stores the first min(len-1, total) characters and a NUL, and nothing when len is 0 |
| PrintfMeaning.Literal | common/libc/printf/__printf.c:497-519 | text without a percent sign prints as it stands |
| PrintfMeaning.FieldThenRest | common/libc/printf/__printf.c:497-565 | a field prints the same whatever follows, and the rest goes on with the next argument exactly after d, o, u, p, x, s and c |
| PrintfMeaning.Unfinished | common/libc/printf/__printf.c:497-565 | a format that ends inside a field prints nothing for it |
| PrintfMeaning.PrintsUnsigned | common/libc/printf/__printf.c:288-345 | %x, %o and %u, with any size, print the argument modulo 2^32 (2^64 for ll) in base 16, 8 and 10, digits only and without leading zeros; # puts 0x or 0 in front |
| PrintfMeaning.PrintsSigned | common/libc/printf/__printf.c:253-287 | %d, with any size, prints the signed number that the argument is modulo 2^32 or 2^64, a minus sign in front exactly when it is negative |
| PrintfMeaning.PrintsPointer | common/libc/printf/__printf.c:241-252 | %p prints 0x and the 32-bit pointer in base 16 |
| PrintfMeaning.PrintsText | common/libc/printf/__printf.c:535-562 | %s prints its string, (null) for none, %c its character, and any other character, such as %%, itself |
| PrintfMeaning.LaysOut | common/libc/printf/__printf.c:366-407 | with any flags and width, a field is its bare text filled up to that width: spaces on the left, zeros behind sign and base prefix with 0, on the right with - |
| Printf.AtoiOfPrintf | common/libc/stdlib/atoi.c:49-101 | atoi of %d with any modifiers is the int printed, if and only if it is not a right-filled-with-zeros non-zero field |

## Left out

- HeapCheck.CheckSubpage: the assertion that the page lies in the kernel's direct-mapped segment is a precondition (the page lies in memory). Its comment promises the guard bands of all allocated blocks are checked; the code does not look at a page with no free block, and the model follows the code.
- KernelHeap.Kmalloc.AddPage: fills the fresh page with 0xdeadbeef inside the locked section; the code does so just before taking the lock, while it alone holds the page.
- HeapSystem.StepKeeps: alloc_kpages and free_kpages are an abstract source of unused, aligned pages; how they find them is not modelled.
- Printf.Vprintf: the character count and field widths are unbounded integers; int overflow is not modelled, and a missing or mismatched argument is read as zero or a null string.
- Semaphore.Conservation: V on a count of 2^32 - 1, where the code's assertion stops the kernel, is not a step.
- LockCv.StepKeeps: one lock and its condition variables; a thread's other locks are not part of the state.
- Scheduler.StepKeeps: wchan_wakeall moves threads one step at a time, so other processors may act in between; the channel's own spinlock, inter-processor interrupts and address-space activation are not modelled.
- Spl.StepKeeps: thread_switch is entered with no spinlock but the one it will release, which only wchan_sleep asserts; handlers return with their spinlocks released.
- PidRuns.StepKeeps: assumes, as kern/proc/proc.c says of user processes, that a process does not exit, disown or wait again for a child while one of its threads is in pid_wait for it.
- PidTable.PidTable.Wait: cv_wait itself is the subject of LockCv.
- Balloon.StepKeeps: what is printed is left out, as are the lines a thread prints before and after its loop, which are steps of BalloonEnd.EndKeeps.
- Argv.PassArguments: loading the executable and replacing the address space between the two copies are not modelled.
- FileCalls.Kernel.SysOpen: copying in the path and vfs_open are not modelled; read, write and lseek move no references.
- Device drivers, bus code, console and file systems: hardware registers and dispatch through function tables.
- VFS path lookup and mounting, the menu, kprintf and panic, heap statistics and dumps: output and dispatch only.
- The page table, address spaces and vm system calls: the fault handler and coremap they rest on are not part of this model.
- kern/lib (bitmap, array, bswap), kern/vm/swap.c and the one-expression millicode (shifts, comparison, bitwise operations): would add easy members only.
- The older parallel design in kern/syscall/fdtable.c, file.c and sysproc.c.
