# Pintos kernel: a verified model

Dafny models of the parts of the Pintos teaching kernel that do not touch hardware, with
proofs of what each layer promises the ones above it. The layers build on each other.

- `Options`, `CStrings`, `Order`, `Integers`, `FixedPoint`: optional values, null-terminated
  strings, orders and stable sorts, integer arithmetic and bitwise and, 17.14 fixed point on
  32-bit ints.
- `KernelList`, `ListUnique`: the intrusive doubly linked list as heap objects, with its
  natural merge sort by splicing and the removal of equal neighbours. Schedulers, semaphores
  and the alarm use these lists.
- `WideDivision`: 64-bit division from a 32-bit divide instruction.
- `Bitmap`, `Palloc`, `Malloc`: packed bitmaps, the two page pools over them, and the block
  allocator over the pages. The allocator's invariant ties free lists, per-arena counts and
  live blocks together.
- `Synch`, `Alarm`: semaphores, locks and sleeping as transition systems whose steps are the
  interrupts-off sections, refined by classes on linked lists.
- `Donation`, `DonationRuns`, `LockRuns`: priority donation along chains of lock holders, one
  call at a time, then with the calls of all threads interleaved in any order, and then inside
  the whole of acquiring and releasing a lock.
- `BsdScheduler`: the 4.4BSD bookkeeping, its bounds and its distance from the exact recurrences
  over all runs.
- `InodeIO`, `BitmapFile`, `InodeLives`, `FileSystem`: bytes through 512-byte sectors with a
  bounce buffer; the free map in its own file; open counts and delayed deletion over all runs.
- `Directory`, `Filesys`, `OpenFiles`: directories as records in a file, creating, opening and
  removing files by name on top of all of these, and the calls on opened files.
- `HashTable`: the chained table with power-of-two rehashing and its iterator, refining a set.
- `PageDirectory`: the two-level x86 page directory, refining a partial map.
- `Ustar`, `Format`, `Conversions`, `Printf`, `ReadBack`, `StdlibSort`: archive headers, integer
  formatting and parsing, printf's conversion specifications and its loop, what its conversions
  print read back as numbers and text, heap sort and binary search.

Conventions. `int` and `size_t` of the source are unbounded here unless a range is part of the
statement; where 32 or 64 bits matter (division, fixed point, page counts, octal fields, page
table entries, formatting) the width is written out and overflow is excluded or stated.
Failing allocations and the priorities in force at a step are parameters, so that every
statement holds for all of them. A failed ASSERT of the source is a precondition.

Where the code departs from what it promises, the code is modelled:

- `malloc` promises at least the size asked for, but above 2^32 - 12 bytes its page count
  wraps and the block is too small. `Malloc.BigPagesHold` gives the exact limit and
  `Malloc.BigPagesWrap` an example.
- `thread_get_recent_cpu` overflows beyond the values that `BsdScheduler.HundredfoldFits`
  gives; `BsdScheduler.ReportableIff` says that some run gets there if and only if five or
  more threads may be ready.
- `umod64` and `smod64` return 32 bits. `WideDivision.UmodExactDivisors` and
  `WideDivision.SmodExactDivisors` say for which divisors that suffices.
- `thread_set_nice` recomputes a priority but stores it only when it is out of range.
  `BsdScheduler.NicePriorityRight` and `BsdScheduler.NiceChangeRight` say when that is right
  all the same, and `BsdScheduler.StaleNice` reaches a state where it is not.
- A lock's waiters are unlinked, the holder's priority is refreshed and `holder` is cleared
  with interrupts on. `DonationRuns.RegisteredIff` says that the lists stay right exactly if no
  thread registers for the lock in between, and `DonationRuns.ReleaseIff` what list and
  priority are at the up; `DonationRuns.StaleRun` is a run in which one does.
- A donation assigns a priority to everyone along the chain without looking at their own or at
  their other waiters. `DonationRuns.DonationRightIff` says when that comes out right, and
  `DonationRuns.AlwaysRightIff` when it does all along a run. It fails when the donor's is less
  than the holder's own (`DonationRuns.LoweredRun`), and also when it is not, if a waiter
  further back has been raised since (`DonationRuns.NestedLoweredRun`).
- A donation follows locks whose holder has let go through a null pointer:
  `Donation.FaultsExactly` says when and `DonationRuns.FaultRun` gets there. The holder of the
  lock asked for may itself be gone since it was tested: `LockRuns.NullIff` and
  `LockRuns.NullRun`.
- `format_integer` pads twice when both the - and 0 flags are in force.
  `Conversions.PaddedTwice` says for which specifications that happens.
- `filesys_create` frees only the header sector when adding the directory entry fails:
  `Filesys.FailureLeaksIff`, and `Filesys.CreateTwice` for a device that this leaves with lost
  sectors.

## Model

| member | source | states |
|---|---|---|
| KernelList.Insert | pintos/src/lib/kernel/list.c:168-178 | inserting before a node of a chain yields the chain with the node there |
| KernelList.Remove | pintos/src/lib/kernel/list.c:248-255 | unlinking an interior node yields the chain without it, and returns its successor |
| KernelList.Splice | pintos/src/lib/kernel/list.c:183-204 | moving a range ahead of a node, in either direction and also when it is empty or already there, rotates the chain |
| KernelList.FindEndOfRun | pintos/src/lib/kernel/list.c:357-372 | the end of the maximal nondecreasing run that starts at the given node |
| KernelList.InplaceMerge | pintos/src/lib/kernel/list.c:379-399 | two adjacent runs become one nondecreasing run, stably; everything outside stays put and all links stay right |
| KernelList.PassStep | pintos/src/lib/kernel/list.c:404-440 | each merge of a pass lowers the number of descents of the whole list |
| KernelList.PassEnd | pintos/src/lib/kernel/list.c:404-440 | a pass leaves one sorted run or strictly fewer descents than it began with: the termination measure of the outer loop |
| KernelList.List.MergePass | pintos/src/lib/kernel/list.c:404-440 | one pass keeps a well-formed list, a stable rearrangement, and ends sorted or with fewer descents |
| KernelList.List.Sort | pintos/src/lib/kernel/list.c:404-440 | terminates on every list and strict weak order, leaving a well-formed list that is the stable sort of the old one |
| KernelList.List.InsertOrdered | pintos/src/lib/kernel/list.c:445-459 | the element goes before the first one that it is less than; the rest is unchanged |
| KernelList.List.Reverse | pintos/src/lib/kernel/list.c:325-337 | the well-formed list in opposite order |
| KernelList.ReversedChain | pintos/src/lib/kernel/list.c:325-337 | turning all interior links around and swapping the four outer ones gives a chain again |
| KernelList.List.PushFront | pintos/src/lib/kernel/list.c:208-212 | the element is first, the others follow unchanged |
| KernelList.List.PushBack | pintos/src/lib/kernel/list.c:216-220 | the element is last, the others precede it unchanged |
| KernelList.List.RemoveElem | pintos/src/lib/kernel/list.c:248-255 | exactly that element is gone; the successor is returned |
| KernelList.List.PopFront | pintos/src/lib/kernel/list.c:259-265 | the first element is returned and gone |
| ListUnique.Unique | pintos/src/lib/kernel/list.c:465-486 | the list keeps exactly the elements that differ from the one kept before them, and the others are appended to the duplicates, if there is such a list |
| ListUnique.KeptAndDups | pintos/src/lib/kernel/list.c:465-486 | nothing is lost or doubled, and no two neighbours that stay are equal |
| ListUnique.KeptOfSorted | pintos/src/lib/kernel/list.c:465-486 | of a sorted list exactly one element of each set of equal ones stays, in order |
| Order.StableSortUnique | pintos/src/lib/kernel/list.c:404-440 | a stable sort is unique, so it may be used as a function of the list |
| Order.DescentsMerge | pintos/src/lib/kernel/list.c:379-399 | merging two adjacent runs removes at least the descent between them and adds none |
| Order.InsertedIsStableSort | pintos/src/lib/kernel/list.c:445-459 | ordered insertion into a sorted list is a stable sort with the newcomer last among equals |
| Order.SortedIsStableSort | pintos/src/lib/kernel/list.c:404-440 | the specification function is the stable sort, for any strict weak order |
| WideDivision.Nlz | pintos/src/lib/arithmetic.c:41-73 | the shift that brings the highest set bit of a nonzero word to bit 31 |
| WideDivision.NarrowQuotient | pintos/src/lib/arithmetic.c:77-97 | with a 32-bit divisor neither divide traps and the two partial quotients add up to the quotient, without wrapping |
| WideDivision.WideDivides | pintos/src/lib/arithmetic.c:99-127 | with a wide divisor the normalising shift loses no bit and the one divide cannot trap |
| WideDivision.WideEstimate | pintos/src/lib/arithmetic.c:99-127 | the estimate is the true quotient or one more |
| WideDivision.CorrectionExact | pintos/src/lib/arithmetic.c:99-127 | the final correction never wraps and yields the true quotient |
| WideDivision.Udiv64 | pintos/src/lib/arithmetic.c:77-127 | floor(n/d) for every 64-bit n and nonzero d |
| WideDivision.Sdiv64 | pintos/src/lib/arithmetic.c:139-146 | truncation toward zero for every pair but INT64_MIN / -1, which gives INT64_MIN |
| WideDivision.SdivMagnitude | pintos/src/lib/arithmetic.c:139-146 | only INT64_MIN / -1 needs a quotient that 64 bits lack |
| WideDivision.Umod64 | pintos/src/lib/arithmetic.c:131-135 | the remainder, reduced to the 32-bit return type |
| WideDivision.Smod64 | pintos/src/lib/arithmetic.c:150-154 | the remainder with the sign of the dividend, reduced to the 32-bit return type |
| WideDivision.UmodExactDivisors | pintos/src/lib/arithmetic.c:131-135 | umod64 is right for every dividend if and only if the divisor is at most 2^32 |
| WideDivision.SmodExactDivisors | pintos/src/lib/arithmetic.c:150-154 | smod64 is right for every dividend if and only if the divisor is at most 2^31 in magnitude |
| WideDivision.TruncProduct | pintos/src/lib/arithmetic.c:150-154 | the truncated remainder has the dividend's sign and is smaller than the divisor |
| Malloc.BigPagesHold | pintos/src/threads/malloc.c:105-121 | the page count of a big block has room for it if and only if the size is at most 2^32 - 12; beyond that the count wraps |
| Malloc.BigPagesFewest | pintos/src/threads/malloc.c:105-121 | short of the wrap the pages are the fewest that hold the request behind the header |
| Malloc.ArenaFilled | pintos/src/threads/malloc.c:76-84 | the blocks of an arena fit its page behind the header, and one more would not |
| Malloc.BigPagesWrap | pintos/src/threads/malloc.c:105-121 | a request of 2^32 - 1 bytes gets one page, of which 4084 bytes are the block |
| Malloc.LiveApart | pintos/src/threads/malloc.c:89-154 | in every reachable state two live blocks do not overlap |
| Malloc.LiveInside | pintos/src/threads/malloc.c:89-154 | every live block lies inside its arena's pages |
| Malloc.TakeKeeps | pintos/src/threads/malloc.c:123-154 | taking a block, from a fresh arena if the list is empty, keeps the invariant and hands out a block that was free |
| Malloc.AddBigGood | pintos/src/threads/malloc.c:105-121 | a big block keeps the invariant |
| Malloc.FreedKeeps | pintos/src/threads/malloc.c:218-264 | freeing a small block keeps the invariant: each list holds exactly the free blocks and each count their number |
| Malloc.ArenaReturned | pintos/src/threads/malloc.c:239-253 | an arena is given back exactly when its last live block is freed |
| Malloc.FullArena | pintos/src/threads/malloc.c:242-253 | a count of all blocks means that all the arena's blocks are on the free list |
| Malloc.DropBigKeeps | pintos/src/threads/malloc.c:256-262 | freeing a big block frees its pages, which hold nothing else |
| Malloc.Allocator.constructor | pintos/src/threads/malloc.c:71-85 | malloc_init sets up descriptors whose state meets the invariant |
| Malloc.Allocator.Malloc | pintos/src/threads/malloc.c:89-154 | hands out a new block of the size asked for and keeps every other, or fails exactly when the page allocator has no room |
| Malloc.Allocator.FillList | pintos/src/threads/malloc.c:130-144 | a fresh arena's blocks fill the empty list |
| Malloc.Allocator.Free | pintos/src/threads/malloc.c:218-264 | exactly that block stops being live; an arena left without live blocks goes back to the page allocator |
| Malloc.Allocator.UnlinkArena | pintos/src/threads/malloc.c:244-252 | the loop unlinks each block of the arena, and its pages are given back |
| Malloc.Allocator.Realloc | pintos/src/threads/malloc.c:194-214 | a new block replaces the old one, which stays when there is no memory; size 0 frees |
| Palloc.Pool.constructor | pintos/src/threads/palloc.c:153-170 | the bitmap takes the first pages and tracks the rest, all free |
| Palloc.BitmapPagesFewest | pintos/src/threads/palloc.c:154-162 | the bitmap has the fewest pages that hold an 8-byte header and a bit for each page of the pool |
| Palloc.Pool.PageFromPool | pintos/src/threads/palloc.c:174-182 | whether a page number lies in the pool |
| Palloc.PageAllocator.constructor | pintos/src/threads/palloc.c:45-62 | from 1 MB on the kernel's pool and then the user's take all of memory, end to end, each with the fewest pages for its bitmap in front; the user's extent is the most that is within the limit and within the kernel's |
| Palloc.PageAllocator.GetMultiple | pintos/src/threads/palloc.c:70-101 | a group apart from every outstanding one, from the pool asked for; fails if and only if that pool has no free range of that length |
| Palloc.PageAllocator.FreeMultiple | pintos/src/threads/palloc.c:117-142 | exactly that group is returned, to the pool that it came from |
| Palloc.ScanFails | pintos/src/threads/palloc.c:70-101 | a scan finds nothing if and only if every range meets an outstanding group |
| Palloc.FreeIsApart | pintos/src/threads/palloc.c:70-101 | a free range is disjoint from every outstanding group |
| Palloc.MatchAdded | pintos/src/threads/palloc.c:70-101 | after an allocation the set bits are still exactly the outstanding pages, in both pools |
| Palloc.MatchRemoved | pintos/src/threads/palloc.c:117-142 | after a free the set bits are still exactly the outstanding pages, in both pools |
| Bitmap.Bitmap.constructor | pintos/src/lib/kernel/bitmap.c:78-94 | all bits false |
| Bitmap.Bitmap.Mark | pintos/src/lib/kernel/bitmap.c:156-166 | that bit is set in its word and no other bit changes |
| Bitmap.Bitmap.Reset | pintos/src/lib/kernel/bitmap.c:169-179 | that bit is cleared and no other changes |
| Bitmap.Bitmap.Flip | pintos/src/lib/kernel/bitmap.c:184-194 | that bit is toggled and no other changes |
| Bitmap.Bitmap.Test | pintos/src/lib/kernel/bitmap.c:197-203 | the bit |
| Bitmap.Bitmap.SetMultiple | pintos/src/lib/kernel/bitmap.c:217-228 | exactly that range of bits gets the value |
| Bitmap.Bitmap.Contains | pintos/src/lib/kernel/bitmap.c:250-263 | whether some bit of the range has the value |
| Bitmap.Bitmap.Scan | pintos/src/lib/kernel/bitmap.c:295-310 | the least start whose cnt bits all have the value, none if and only if there is none |
| Bitmap.Bitmap.ScanAndFlip | pintos/src/lib/kernel/bitmap.c:319-326 | that group is flipped and nothing else |
| Bitmap.MarkOneBit | pintos/src/lib/kernel/bitmap.c:156-166 | or-ing a mask into a word sets one bit of the sequence and no other |
| Bitmap.ResetOneBit | pintos/src/lib/kernel/bitmap.c:169-179 | and-ing the complement clears one bit and no other |
| Bitmap.FlipOneBit | pintos/src/lib/kernel/bitmap.c:184-194 | xor-ing a mask toggles one bit and no other |
| Synch.NextKeepsWakeups | pintos/src/threads/synch.c:61-138 | every interrupts-off section keeps the no-lost-wakeup invariant |
| Synch.SemaphoreRuns | pintos/src/threads/synch.c:61-138 | over every interleaving the value is the initial one plus ups minus completed downs, and waiters imply that the value is at most the number of woken threads yet to re-test |
| Synch.WokenCanPass | pintos/src/threads/synch.c:61-81 | if a thread waits while the value is positive, some woken thread's next section completes its down |
| Synch.UpWakesBest | pintos/src/threads/synch.c:113-138 | up unblocks a waiter of the highest priority, the first in the queue among equals |
| Synch.Semaphore.Down | pintos/src/threads/synch.c:61-81 | one turn of the loop, on the linked list of waiters, is the step of the transition system: a positive value is lowered by one, and otherwise the thread waits in priority order |
| Synch.Semaphore.TryDown | pintos/src/threads/synch.c:88-107 | true if and only if the value was positive, and then exactly one unit is taken |
| Synch.Semaphore.Up | pintos/src/threads/synch.c:113-138 | the step of the transition system; the thread goes behind those of its priority on the ready list |
| Synch.PopBest | pintos/src/threads/synch.c:122-128 | sorting the waiters by current priority and popping the front |
| Synch.Unblock | pintos/src/threads/thread.c:352-367 | the thread is inserted behind the ready threads of its priority |
| Synch.LockNextKeepsToken | pintos/src/threads/synch.c:209-269 | every step of every thread keeps exactly one token: the semaphore's value, or one thread in the critical section |
| Synch.LockRunsKeepToken | pintos/src/threads/synch.c:209-269 | so does every run |
| Synch.MutualExclusion | pintos/src/threads/synch.c:209-269 | over every run at most one thread is between lock_acquire and lock_release |
| Synch.FreeIff | pintos/src/threads/synch.c:193-270 | the semaphore of a lock is available if and only if no thread is in the critical section |
| Synch.WaitersHaveCause | pintos/src/threads/synch.c:209-269 | if threads wait for a lock, a thread holds it, is about to, is releasing it, or has been woken for it |
| Synch.Lock.Acquire | pintos/src/threads/synch.c:209-226 | the semaphore section of lock_acquire as a step of the lock's transition system |
| Synch.Lock.TryAcquire | pintos/src/threads/synch.c:234-246 | succeeds if and only if nobody is between acquiring and releasing the lock, and then takes it |
| Synch.Lock.Record | pintos/src/threads/synch.c:224-225 | recording the holder as a step |
| Synch.Lock.ClearHolder | pintos/src/threads/synch.c:266-266 | clearing the holder as a step |
| Synch.Lock.Release | pintos/src/threads/synch.c:268-268 | the up of lock_release as a step |
| Donation.FaultsExactly | pintos/src/threads/thread.c:915-928 | the loop reads through a null pointer if and only if the chain of holders breaks off, among the first eight, at a thread that waits for a lock without a holder |
| Donation.EightDeep | pintos/src/threads/thread.c:913-928 | a donation raises every thread of a chain of at most eight, exactly the first eight of a longer one, and nobody else |
| Donation.DonatePriority | pintos/src/threads/thread.c:887-930 | the donor is registered in priority order with the holder, and exactly the first eight threads of the chain, or those up to where it ends or breaks off, get the better of the donor's and the first waiter's priority; it faults exactly then |
| Donation.PassAlong | pintos/src/threads/thread.c:913-928 | the loop visits that prefix of the chain and assigns the same priority to each, whatever locks come after the eighth holder |
| Donation.DonatedIsBest | pintos/src/threads/thread.c:900-911 | with the waiters in order, what is passed along is the highest priority among them and the donor |
| Donation.UnlinkWaiters | pintos/src/threads/thread.c:974-985 | unlinking while iterating leaves exactly the waiters of other locks, in order |
| Donation.RemoveWaiters | pintos/src/threads/thread.c:974-985 | no other thread's list changes |
| Donation.Reprioritize | pintos/src/threads/thread.c:958-971 | the waiters are sorted by current priority, and the priority becomes the best of the initial one and theirs |
| Donation.Refresh | pintos/src/threads/thread.c:958-971 | no other thread's list or priority changes |
| Donation.FirstOfSorted | pintos/src/threads/thread.c:958-971 | looking at the first sorted waiter suffices: it has the highest priority |
| Donation.SetPriority | pintos/src/threads/thread.c:482-495 | a new initial priority never hides a better waiter's |
| DonationRuns.NextSound | pintos/src/threads/synch.c:209-269 | whatever calls of whatever threads interleave, each list element is on one list at most, none is on its own thread's, and a lock being released is still held |
| DonationRuns.RegisteredStep | pintos/src/threads/synch.c:253-268 | only the clearing of holder can break that whoever is on a list waits for a lock which the list's thread holds, and it does so if and only if a waiter of that lock is listed |
| DonationRuns.InWindow | pintos/src/threads/synch.c:253-268 | between thread_lock_remove and the clearing of holder, the listed waiters of the lock are exactly those that registered in between |
| DonationRuns.RegisteredIff | pintos/src/threads/synch.c:209-269 | in a run from boot that property holds at every moment if and only if no thread registers for a lock between thread_lock_remove and the clearing of holder |
| DonationRuns.ReleaseIff | pintos/src/threads/synch.c:253-268 | at the up the caller's list holds waiters of its other locks alone if and only if nobody registered for the lock in between; and its priority is the best of its own and theirs if and only if the last donation since the refresh that reached it or one of them, if any did, fitted |
| DonationRuns.PrioStep | pintos/src/threads/thread.c:887-930 | a step whose donation does not reach a thread or its waiters leaves its priority right if and only if it was right, unless it is that thread's own removal, refresh or new priority |
| DonationRuns.RefreshRight | pintos/src/threads/thread.c:958-971 | the refresh makes it right |
| DonationRuns.ResetRight | pintos/src/threads/thread.c:958-971 | so does any own priority that is set ahead of it |
| DonationRuns.DonationRightIff | pintos/src/threads/thread.c:887-930 | a registration leaves a thread's priority right, for every thread, chain and order of the waiters, if and only if it fits: the assigned priority is not below the thread's own or that of one of its waiters, and is one of these |
| DonationRuns.ReachedFits | pintos/src/threads/thread.c:900-928 | for a thread that the donation reaches, fitting is that what is passed along is at least its own priority and those of its waiters that the donation does not reach, and equal to one of them unless the thread is the lock's holder |
| DonationRuns.AlwaysRightIff | pintos/src/threads/synch.c:209-269 | in a run from boot without a registration in a release window, every thread that is not between its removal and its refresh always has the best of its own priority and its waiters', if and only if every registration fits for all of these that it reaches |
| DonationRuns.LoweredRun | pintos/src/threads/thread.c:900-928 | a run from boot in which a low-priority thread lowers the holder |
| DonationRuns.NestedLoweredRun | pintos/src/threads/thread.c:900-928 | a run from boot in which a donation not below the holder's own priority lowers it below a waiter's, who was raised by a nested donation but stands further back |
| DonationRuns.LoweredInRelease | pintos/src/threads/synch.c:253-268 | a run from boot in which nobody registers for the lock being released, but a registration for another of the caller's locks after the refresh leaves its priority below its own |
| DonationRuns.StaleRun | pintos/src/threads/synch.c:253-268 | a run from boot in which a registration between the refresh and the clearing of holder leaves the caller with the donated priority, and the waiter listed after it has the lock |
| DonationRuns.FaultRun | pintos/src/threads/thread.c:915-928 | a run from boot after which the next lock_acquire reads through a null holder: a lock's holder has let go and the thread waiting for it has not run since |
| DonationRuns.BeforeDown | pintos/src/threads/synch.c:216-221 | lock_acquire up to its down is the registration step, or nothing when the lock is free, and faults exactly when that step is not possible |
| DonationRuns.AfterDown | pintos/src/threads/synch.c:223-225 | lock_acquire after its down is the step in which the thread becomes the holder |
| DonationRuns.ThreadLockRemove | pintos/src/threads/thread.c:974-985 | thread_lock_remove is a step |
| DonationRuns.ThreadLockRefresh | pintos/src/threads/thread.c:958-971 | thread_lock_refresh is a step |
| DonationRuns.ClearHolder | pintos/src/threads/synch.c:266 | the clearing of holder is a step |
| DonationRuns.ThreadSetPriority | pintos/src/threads/thread.c:482-495 | thread_set_priority is a step |
| LockRuns.NextInv | pintos/src/threads/synch.c:193-269 | with the test of holder and the semaphore's value among the steps of lock_acquire, lock_try_acquire and lock_release, whatever threads interleave, a lock's value is at most 1, and 1 only if nobody takes it, holds it or lets go of it |
| LockRuns.OneInside | pintos/src/threads/synch.c:193-269 | one thread at most is between a lock's down and its up |
| LockRuns.RecordIsPass | pintos/src/threads/synch.c:223-225 | behind the down the lock has no holder, so the end of lock_acquire is a step of the donation system |
| LockRuns.Projects | pintos/src/threads/synch.c:193-269 | every run of the locks is a run of the donation system, so what holds of all of that one's runs holds of lock_acquire and lock_release |
| LockRuns.DonateFails | pintos/src/threads/thread.c:887-930 | a thread that has seen a holder can register if and only if the holder is still there, its list element is on no list, and the chain does not run into a null holder |
| LockRuns.NullIff | pintos/src/threads/synch.c:208-268 | between its test of holder and its donation a thread loses the holder if and only if the holder has let go in between and nobody has followed it |
| LockRuns.NullRun | pintos/src/threads/synch.c:208-268 | a run from boot in which that happens |
| Alarm.WokenOnTime | pintos/src/threads/thread.c:799-846 | over every run a sleeper sleeps until the first tick at or past its deadline, the next tick if that is already past, and no longer; time is the number of ticks |
| Alarm.Alarm.TimerSleep | pintos/src/devices/timer.c:90-104 | the caller joins the end of the sleeping list with deadline now + ticks |
| Alarm.Alarm.TimerInterrupt | pintos/src/devices/timer.c:177-182 | a tick wakes exactly the sleepers whose deadline has come, and all of them become ready |
| Alarm.Alarm.WakeUp | pintos/src/threads/thread.c:827-846 | although nodes move to another list during the scan, the sleeping list becomes its order-preserving filter and the ready list gets exactly the rest, in list order |
| Alarm.Alarm.WakeOne | pintos/src/threads/thread.c:836-840 | one node is unlinked and readied; the scan resumes at the node before it |
| Alarm.AllReadied | pintos/src/threads/thread.c:827-846 | no sleeper is lost: each is on one of the two lists |
| FixedPoint.FpToIntNear | pintos/src/threads/fixed-point.h:36-42 | the result is within half a unit of the number |
| FixedPoint.FpToIntZero | pintos/src/threads/fixed-point.h:32-34 | rounding toward zero never increases the magnitude |
| BsdScheduler.NextLoad | pintos/src/threads/thread.c:1054-1071 | no step overflows, and with at most R ready threads the load stays in [0, R*2^14] |
| BsdScheduler.NextTrails | pintos/src/threads/thread.c:1054-1071 | one update keeps the load at most the exact recurrence and within 60*(R+1) units of it |
| BsdScheduler.LoadRuns | pintos/src/threads/thread.c:1054-1071 | so over every run of updates: rounding errors do not accumulate |
| BsdScheduler.Decay | pintos/src/threads/thread.c:1038-1040 | the decay is a fraction of at most 2R/(2R+1) |
| BsdScheduler.NextCpu | pintos/src/threads/thread.c:1037-1052 | no step overflows, and recent_cpu lands in [-(40R+20), 240R+20] * 2^14 |
| BsdScheduler.NextCpuNear | pintos/src/threads/thread.c:1037-1052 | one update is within 1 + |recent_cpu| units of 2^-14 of 2L/(2L+1) * recent_cpu + nice in the reals, for every load, recent_cpu and nice of either sign |
| BsdScheduler.TallyRuns | pintos/src/threads/thread.c:1037-1078 | after every run of seconds load average and recent_cpu are within fixed distances of the exact recurrences, the lag of the load included |
| BsdScheduler.Priority | pintos/src/threads/thread.c:1020-1034 | in [0, 63] for every reachable recent_cpu and nice |
| BsdScheduler.PriorityFalls | pintos/src/threads/thread.c:1020-1034 | more CPU time or a higher nice never raises the priority |
| BsdScheduler.PriorityExact | pintos/src/threads/thread.c:1018-1034 | inside [0, 63] it is the exact formula rounded down, up to the quarter units dropped by recent_cpu/4 |
| BsdScheduler.HundredfoldFits | pintos/src/threads/thread.c:558-568 | thread_get_recent_cpu's product and rounding fit 32 bits if and only if |recent_cpu| <= 21474754 |
| BsdScheduler.BusyRun | pintos/src/threads/thread.c:1037-1071 | with 5 ready threads, a thread of nice 20 that always runs comes to a recent_cpu beyond that |
| BsdScheduler.ReportableIff | pintos/src/threads/thread.c:558-568 | at every tick of every run of load_avg and recent_cpu updates from boot the value can be reported if and only if at most 4 threads are ever ready |
| BsdScheduler.Scheduler.constructor | pintos/src/threads/thread.c:106-159 | the initial thread alone, running with nice and recent_cpu 0 and their priority, meets the invariant |
| BsdScheduler.Scheduler.Create | pintos/src/threads/thread.c:282-298 | the child inherits nice and recent_cpu and gets their priority; the invariant holds |
| BsdScheduler.Scheduler.SetNice | pintos/src/threads/thread.c:505-529 | the priority becomes an end of the range if the formula leaves it there and stays as it was otherwise; recent_cpu stays and the invariant holds |
| BsdScheduler.NicePriorityRight | pintos/src/threads/thread.c:511-523 | the stored priority is the formula's if and only if that leaves the range or gives the old value |
| BsdScheduler.NiceChangeRight | pintos/src/threads/thread.c:511-523 | a priority that was up to date stays so if and only if nice does not change, the formula leaves the range, or it gives the end of the range at which the old priority was cut off |
| BsdScheduler.StaleNice | pintos/src/threads/thread.c:505-529 | at boot, setting nice to 1 leaves priority 63 where the formula gives 61 |
| BsdScheduler.Scheduler.Exit | pintos/src/threads/thread.c:404-442 | exactly the running thread leaves the list of all threads |
| BsdScheduler.Scheduler.IncreaseRecentCpu | pintos/src/threads/thread.c:1074-1079 | only the running thread is charged, and the bound grows by one unit a tick |
| BsdScheduler.Scheduler.CalPriority | pintos/src/threads/thread.c:1020-1034 | every thread gets the priority of its recent_cpu and nice |
| BsdScheduler.Scheduler.CalLoadAvg | pintos/src/threads/thread.c:1054-1071 | the load average is updated with the number of running or ready threads but idle |
| BsdScheduler.ReadyThreadsAre | pintos/src/threads/thread.c:1054-1071 | the threads counted are exactly the running and ready ones but idle, each once |
| BsdScheduler.Scheduler.CalRecentCpu | pintos/src/threads/thread.c:1037-1052 | every thread but idle is updated from the new load average |
| BsdScheduler.Scheduler.TimerInterrupt | pintos/src/devices/timer.c:177-196 | a tick in the order of the source keeps every bound, for every thread, at every tick of every run |
| BsdScheduler.Scheduler.Recalculate | pintos/src/devices/timer.c:188-194 | priorities from the values as they stand every fourth tick, then the load average and recent_cpu from it every second |
| BsdScheduler.Scheduler.GetLoadAvg | pintos/src/threads/thread.c:545-555 | 100 times the load average to the nearest integer, without overflow |
| BsdScheduler.Scheduler.GetRecentCpu | pintos/src/threads/thread.c:558-568 | 100 times recent_cpu to the nearest integer, or an overflow exactly beyond 21474754 in magnitude |
| InodeIO.ReadAt | pintos/src/filesys/inode.c:200-250 | exactly the bytes of the file at the offset arrive, min(size, max(0, length - offset)) of them; without a bounce buffer, its whole sectors only |
| InodeIO.ReadChunk | pintos/src/filesys/inode.c:200-250 | a turn of the read loop delivers its chunk, or fails exactly for part of a sector without memory |
| InodeIO.WriteAt | pintos/src/filesys/inode.c:257-318 | exactly the sectors' bytes at the written file positions change; nothing when writes are denied |
| InodeIO.WriteChunk | pintos/src/filesys/inode.c:257-318 | a turn of the write loop patches the chunk into its sector |
| InodeIO.PatchedContent | pintos/src/filesys/inode.c:257-318 | the file's content is overwritten at exactly those positions |
| InodeIO.PatchedElsewhere | pintos/src/filesys/inode.c:257-318 | no sector outside the file's extent changes |
| InodeIO.PatchedOtherFile | pintos/src/filesys/inode.c:257-318 | no other file's content changes |
| InodeIO.WriteThenRead | pintos/src/filesys/inode.c:200-318 | reading back what was written returns it, whatever the alignment |
| InodeIO.TransferInFile | pintos/src/filesys/inode.c:200-318 | a transfer never leaves the file |
| InodeIO.TransferStarves | pintos/src/filesys/inode.c:226-236 | without memory the loop stops at the first partial sector |
| FileSystem.FileSystem.constructor | pintos/src/filesys/free-map.c:12-20 | nothing open, and only the two system headers marked |
| FileSystem.FileSystem.InodeOpen | pintos/src/filesys/inode.c:111-142 | one handle more on the open inode of that sector, or a new one; fails exactly without memory for an inode that is not open |
| FileSystem.FileSystem.InodeReopen | pintos/src/filesys/inode.c:145-151 | one handle more |
| FileSystem.FileSystem.InodeClose | pintos/src/filesys/inode.c:163-186 | one handle less; the inode's sectors return to the free map if and only if this was the last one and the inode was removed, and then the map's file is written and no other file changes |
| FileSystem.FileSystem.InodeRemove | pintos/src/filesys/inode.c:190-195 | the flag is set and nothing is freed |
| FileSystem.FileSystem.InodeCreate | pintos/src/filesys/inode.c:72-106 | succeeds exactly with memory, room and a writable map; a file of zeros in the first free sectors, exactly those that a byte of it falls into; every other file keeps its bytes but the free map's own, which holds the new map |
| InodeIO.SectorsFewest | pintos/src/filesys/inode.c:25-29 | the sectors allocated are the fewest that hold the bytes: each but the last is full, and the last is not empty |
| FileSystem.OwnsExactly | pintos/src/filesys/inode.c:72-106 | an inode owns its header's sector and those sectors of its extent that hold a byte of the file, no others |
| FileSystem.ReleasedExactly | pintos/src/filesys/inode.c:176-182 | releasing an inode frees exactly those sectors |
| FileSystem.FileSystem.FreeMapAllocate | pintos/src/filesys/free-map.c:27-41 | the first free group, marked in memory and in the map's file; unmarked again exactly when the file cannot be written |
| FileSystem.FileSystem.FreeMapRelease | pintos/src/filesys/free-map.c:44-50 | exactly those sectors are unmarked, also in the map's file when that can be written |
| FileSystem.FileSystem.FreeMapCreate | pintos/src/filesys/free-map.c:72-85 | succeeds if and only if there are memory and room; then the free map has an inode and a file of its own that holds it, and exactly that file's sectors are taken |
| FileSystem.FileSystem.Unreserve | pintos/src/filesys/filesys.c:53-54 | exactly the header sector is unmarked |
| FileSystem.FileSystem.OnlyMapKeeps | pintos/src/filesys/free-map.c:44-50 | writing the map changes no other live file |
| BitmapFile.BitmapWrite | pintos/src/lib/kernel/bitmap.c:355-360 | the file holds the map if and only if writes are not denied and, where the map does not fill whole sectors, there is memory |
| BitmapFile.ImageInjective | pintos/src/lib/kernel/bitmap.c:340-360 | the bytes written determine the map |
| BitmapFile.BitInImage | pintos/src/lib/kernel/bitmap.c:333-360 | bit i of the map is bit i % 8 of byte i / 8 of the file |
| InodeLives.CountsHandles | pintos/src/filesys/inode.c:111-186 | over every run the open count is the opens less the closes |
| InodeLives.RemovedIff | pintos/src/filesys/inode.c:163-195 | over every run an open inode is flagged removed if and only if inode_remove was called on it while it has been open since |
| InodeLives.FreedIff | pintos/src/filesys/inode.c:163-195 | over every run an inode's sectors become free if and only if its last handle is closed after it was removed while open |
| InodeLives.OpenAround | pintos/src/filesys/inode.c:111-186 | opening and closing one inode around a step on another leaves that step as it is |
| FileSystem.FileSystem.FileOpen | pintos/src/filesys/file.c:17-34 | the file takes over the caller's handle; on failure the handle is closed, and the inode is released exactly if that was the last one of a removed inode |
| FileSystem.FileSystem.FileReopen | pintos/src/filesys/file.c:38-42 | another file on the same inode, or no handle leaked; nothing is released either way |
| FileSystem.FileSystem.FileClose | pintos/src/filesys/file.c:45-54 | the file's denial and handle are given back; the inode is released if and only if it was removed and this was its last handle |
| FileSystem.FileSystem.FileDenyWrite | pintos/src/filesys/file.c:118-127 | each file counts at most once in deny_write_cnt |
| FileSystem.FileSystem.FileAllowWrite | pintos/src/filesys/file.c:132-141 | a file takes back its own denial only |
| FileSystem.ReserveKeeps | pintos/src/filesys/free-map.c:27-41 | marking a free sector keeps all inodes' sectors disjoint and marked |
| FileSystem.CreateKeeps | pintos/src/filesys/inode.c:72-106 | so does a new inode |
| FileSystem.ReleaseKeeps | pintos/src/filesys/inode.c:163-186 | so does releasing one: its sectors were all marked and nobody else's |
| FileSystem.NoHandlesLeft | pintos/src/filesys/inode.c:163-186 | a count of 0 means that no handle is left |
| FileSystem.DenyingWithin | pintos/src/filesys/inode.c:322-338 | deny_write_cnt never exceeds the number of open files |
| FileSystem.CreateApart | pintos/src/filesys/inode.c:72-106 | zeroing freshly allocated sectors touches no live file |
| Directory.Dir.Lookup | pintos/src/filesys/directory.c:91-112 | finds the record bound to the name, if and only if there is one |
| Directory.Dir.DirLookup | pintos/src/filesys/directory.c:118-133 | the header sector bound to the name, if and only if it is bound |
| Directory.Dir.FindFree | pintos/src/filesys/directory.c:158-168 | the first free record, or the end of the records if none is free |
| Directory.Dir.Add | pintos/src/filesys/directory.c:141-179 | adds exactly that binding, and succeeds if and only if the name is valid and unbound, a record is free and writes are allowed; no other file's sectors change |
| Directory.Dir.Erase | pintos/src/filesys/directory.c:203-206 | frees exactly the record that was found, unless writes are denied |
| Directory.Dir.Readdir | pintos/src/filesys/directory.c:221-236 | the next record in use, skipping none |
| Directory.Dir.List | pintos/src/filesys/directory.c:221-236 | from the start until nothing is left, each binding is listed once |
| Directory.Added | pintos/src/filesys/directory.c:141-179 | filling a free record keeps names unique and adds that binding to the map |
| Directory.Removed | pintos/src/filesys/directory.c:184-216 | freeing a record keeps names unique and removes that binding from the map |
| Directory.WriteRecord | pintos/src/filesys/directory.c:170-174 | a record write replaces that record alone, and at the end of the file none |
| Directory.FillRecord | pintos/src/filesys/directory.c:171-174 | the record has the sector in its first four bytes, least weight first, then the name and a null, and the flag in its last byte |
| Directory.ZerosAreEmpty | pintos/src/filesys/directory.c:26-30 | a new file of zeros is an empty directory, with room if it has space for a record |
| Filesys.FilesysCreate | pintos/src/filesys/filesys.c:45-59 | succeeds if and only if the root directory opens, is writable and has a free record, the name is new and of 1 to 14 bytes, and there are memory and room for a header and the fewest sectors that hold the length; then exactly that name is added, for a file of zeros; on every outcome the free map is as stated and all other files keep their bytes |
| Filesys.FailureLeaksIff | pintos/src/filesys/filesys.c:53-54 | a failing filesys_create leaves the free map as it was if and only if it does not come to dir_add or the file has no data |
| Filesys.LeftMarked | pintos/src/filesys/filesys.c:53-54 | what stays marked then are exactly the data sectors, all of them |
| Filesys.NewInode | pintos/src/filesys/filesys.c:49-51 | the steps ahead of dir_add all succeed if and only if there are memory, a writable map and room for header and data |
| Filesys.CreateIn | pintos/src/filesys/filesys.c:49-54 | with the root directory open: one new name and inode, or the header sector given back |
| Filesys.FilesysOpen | pintos/src/filesys/filesys.c:66-77 | a file on the inode that the name binds, if and only if there is such a name and memory; otherwise no handle is leaked and nothing changes |
| Filesys.FilesysRemove | pintos/src/filesys/filesys.c:83-91 | the name goes, and no other; the sectors become free at once if the file is not open, and otherwise the inode is flagged |
| Filesys.DirRemove | pintos/src/filesys/directory.c:184-216 | the steps of dir_remove on the real inodes |
| Filesys.DirLookup | pintos/src/filesys/directory.c:118-133 | an inode with a handle for the caller, if and only if the name is bound and the inode can be opened |
| Filesys.DirOpenRoot | pintos/src/filesys/directory.c:54-58 | a directory that holds a handle on the root inode, or no handle leaked |
| Filesys.CreateKeepsNames | pintos/src/filesys/filesys.c:45-59 | names stay bound to live, distinct inodes that are not removed when one is created and bound |
| Filesys.UnnamedKeepsNames | pintos/src/filesys/filesys.c:83-91 | and when an inode that has lost its name is removed and closed |
| Filesys.Format | pintos/src/filesys/filesys.c:94-103 | succeeds if and only if there are memory and room for 3 sectors and the fewest with a bit for each sector; then those are taken, the directory has 16 free records, the map is stored, and the invariant of the calls by name holds |
| Filesys.CreateTwice | pintos/src/filesys/filesys.c:45-59 | after formatting, creating a file and creating it again, the second call has failed, its header sector is free, and as many sectors as the file has data, counted by its bytes, are marked that no inode owns |
| OpenFiles.FileRead | pintos/src/filesys/file.c:68-74 | the file's bytes from its position on, which moves by their number; names and bytes stay |
| OpenFiles.FileWrite | pintos/src/filesys/file.c:94-100 | exactly the bytes from the position on become the buffer's, none when writes are denied; names and all other files' bytes stay |
| OpenFiles.FileClose | pintos/src/filesys/file.c:45-54 | names stay bound as they were, and the sectors of a removed file become free with its last handle |
| OpenFiles.FileReopen | pintos/src/filesys/file.c:38-42 | a second file at position 0 on the same inode, or nothing changes |
| OpenFiles.FileDenyWrite | pintos/src/filesys/file.c:118-128 | writes to the file are denied, and the calls by name are not affected |
| OpenFiles.FileAllowWrite | pintos/src/filesys/file.c:132-142 | the file denies no more, and the calls by name are not affected |
| HashTable.Hash.constructor | pintos/src/lib/kernel/hash.c:24-42 | an empty table of four buckets |
| HashTable.Hash.FindElem | pintos/src/lib/kernel/hash.c:314-326 | finds an element equal to the given one, if and only if the whole table has one |
| HashTable.Hash.Insert | pintos/src/lib/kernel/hash.c:98-110 | adds the element to the set unless an equal one is there, which is returned |
| HashTable.Hash.Replace | pintos/src/lib/kernel/hash.c:114-127 | the element takes the place of an equal one, which is returned |
| HashTable.Hash.Find | pintos/src/lib/kernel/hash.c:131-135 | an equal element, if and only if there is one |
| HashTable.Hash.Delete | pintos/src/lib/kernel/hash.c:144-154 | removes and returns the equal element, if there is one |
| HashTable.Hash.Rehash | pintos/src/lib/kernel/hash.c:351-413 | keeps the set; with memory the bucket count is the greatest power of two that is at most half the element count, and at least four |
| HashTable.Hash.MoveAll | pintos/src/lib/kernel/hash.c:384-412 | every element ends up in its new bucket, none is lost or doubled |
| HashTable.HashIterator.HashNext | pintos/src/lib/kernel/hash.c:218-235 | yields the elements ahead one by one, across empty buckets |
| HashTable.VisitAll | pintos/src/lib/kernel/hash.c:199-235 | the iteration idiom visits each element of the table exactly once |
| HashTable.RestOnce | pintos/src/lib/kernel/hash.c:199-235 | the buckets in order hold each element exactly once |
| HashTable.BucketInRange | pintos/src/lib/kernel/hash.c:305-310 | masking with a power of two less one is the remainder, so buckets exist |
| Integers.AndPredecessor | pintos/src/lib/kernel/hash.c:329-333 | x & (x - 1) is x with its lowest set bit off |
| Integers.IsPow2Exponent | pintos/src/lib/kernel/hash.c:336-340 | what passes the test is the power of two that its highest bit says |
| Integers.Pow2IsPow2 | pintos/src/lib/kernel/hash.c:336-340 | and every power of two passes it |
| Integers.PredecessorKeepsTop | pintos/src/lib/kernel/hash.c:370-371 | turning bits off from the bottom stops at the highest |
| Integers.AndMask | pintos/src/lib/kernel/hash.c:305-310 | masking with 2^k - 1 is the remainder by 2^k |
| Ustar.CalculateChksum | pintos/src/lib/ustar.c:36-54 | the sum of the header's bytes with the field taken as spaces |
| Ustar.SumIgnoresField | pintos/src/lib/ustar.c:36-54 | the checksum does not depend on its own field |
| Ustar.SumOfSpaces | pintos/src/lib/ustar.c:36-54 | it is the plain sum of the bytes of the header with spaces in that field |
| Ustar.StripAntisocialPrefixes | pintos/src/lib/ustar.c:65-73 | computes the stripped name |
| Ustar.StrippedIsRest | pintos/src/lib/ustar.c:65-73 | what is taken off the front is a run of /, ./ and ../ and no such follows; the rest stays as it is, but nothing and .. become . |
| Ustar.StrippedIsSafe | pintos/src/lib/ustar.c:65-73 | a stripped name is not empty, absolute, a step up, nor does it begin with ./ or ../ |
| Ustar.StripIdempotent | pintos/src/lib/ustar.c:65-73 | stripping twice is stripping once |
| Ustar.ParseOctalField | pintos/src/lib/ustar.c:129-162 | accepts exactly digits that fit 32 bits and end in a space or null, with their value |
| Ustar.PrintedField | pintos/src/lib/ustar.c:88-113 | parsing a printed field gives back the value |
| Ustar.OctalIsPrinted | pintos/src/lib/ustar.c:88-113 | the octal fields are what snprintf's %0<w>o prints |
| Ustar.MakeHeader | pintos/src/lib/ustar.c:82-118 | fails exactly for stripped names beyond 99 bytes, and otherwise fills all 512 bytes |
| Ustar.ParseHeader | pintos/src/lib/ustar.c:181-227 | every check in order, for any 512 bytes |
| Ustar.RoundTrip | pintos/src/lib/ustar.c:82-227 | parsing a made header returns the stripped name, the type and the size (0 for directories); only a regular file of negative size is refused |
| Ustar.ParsedNameIsSafe | pintos/src/lib/ustar.c:181-227 | whatever the header, a parsed name is safe to extract to and the size fits an int |
| Ustar.OneByteDetected | pintos/src/lib/ustar.c:181-227 | changing any one byte outside the checksum field of an accepted header is detected |
| PageDirectory.AddressParts | pintos/src/threads/pte.h:32-39 | directory index, table index and offset together determine an address |
| PageDirectory.PageOf | pintos/src/threads/vaddr.h:24-41 | an address and its page share their table entry |
| PageDirectory.EntryRoundTrip | pintos/src/threads/pte.h:71-104 | decoding a created entry gives back the page and the flags |
| PageDirectory.EntryLayout | pintos/src/threads/pte.h:50-68 | address and flags are at the bits of the processor's format |
| PageDirectory.CreatedForUser | pintos/src/threads/pte.h:71-98 | a created directory entry has P, W and U set, and a created table entry U |
| PageDirectory.DirtyChanged | pintos/src/userprog/pagedir.c:172-186 | only the dirty flag changes |
| PageDirectory.AccessedChanged | pintos/src/userprog/pagedir.c:201-215 | only the accessed flag changes |
| PageDirectory.PageDir.constructor | pintos/src/userprog/pagedir.c:16-23 | no user page is mapped and the kernel's entries are copied |
| PageDirectory.PageDir.LookupOrCreate | pintos/src/userprog/pagedir.c:56-86 | a missing table is created without changing any entry; fails exactly without memory for it |
| PageDirectory.PageDir.SetPage | pintos/src/userprog/pagedir.c:98-119 | map update: that page alone is mapped, also when others share its table; user code can then read it, and write it if and only if that was asked for |
| PageDirectory.PageDir.GetPage | pintos/src/userprog/pagedir.c:125-137 | map lookup, plus the offset in the page |
| PageDirectory.ByteOfPage | pintos/src/userprog/pagedir.c:98-137 | for a page that was set, that is the address of the byte at the same offset in the page given |
| PageDirectory.PageDir.ClearPage | pintos/src/userprog/pagedir.c:143-157 | map removal: the present bit alone goes off, and no other page changes |
| PageDirectory.PageDir.IsDirty | pintos/src/userprog/pagedir.c:163-168 | the entry's dirty flag |
| PageDirectory.PageDir.SetDirty | pintos/src/userprog/pagedir.c:172-186 | the page's dirty flag alone is set; an unmapped page stays unmapped |
| PageDirectory.PageDir.IsAccessed | pintos/src/userprog/pagedir.c:192-197 | the entry's accessed flag |
| PageDirectory.PageDir.SetAccessed | pintos/src/userprog/pagedir.c:201-215 | the page's accessed flag alone is set |
| PageDirectory.PageDir.Destroy | pintos/src/userprog/pagedir.c:27-48 | frees every mapped frame, every user table and the directory, nothing else, and each once if no frame is mapped twice |
| PageDirectory.DirFreesExactly | pintos/src/userprog/pagedir.c:34-46 | the two loops reach each user table and each frame mapped through one |
| PageDirectory.PageDir.MappedIsLookup | pintos/src/userprog/pagedir.c:34-46 | what the loops see is what lookups see |
| PageDirectory.PageDir.AccessIsLookup | pintos/src/userprog/pagedir.c:98-119 | by the bits of both levels user code can read exactly the mapped user pages and write exactly the writable ones, after every operation |
| PageDirectory.PageOfEntry | pintos/src/threads/pte.h:32-39 | every table slot of the user part is the entry of some user page |
| StdlibSort.Heapify | pintos/src/lib/stdlib.c:96-123 | restores the heap from any one index out of place, permuting the prefix and touching nothing after it |
| StdlibSort.FloatStep | pintos/src/lib/stdlib.c:96-123 | floating the greatest child up moves the one exception down |
| StdlibSort.BuildHeap | pintos/src/lib/stdlib.c:142-144 | the whole array becomes a heap of the same elements |
| StdlibSort.PopRoot | pintos/src/lib/stdlib.c:147-151 | the greatest remaining element joins the sorted end |
| StdlibSort.RootIsGreatest | pintos/src/lib/stdlib.c:147-151 | no element of a heap is greater than its root |
| StdlibSort.Sort | pintos/src/lib/stdlib.c:131-152 | an ordered permutation of the array, for any strcmp()-type comparison |
| StdlibSort.BinarySearch | pintos/src/lib/stdlib.c:184-207 | on an ordered array, a matching index if and only if there is a match |
| Format.Atoi | pintos/src/lib/stdlib.c:9-41 | every string that denotes a 32-bit int is converted without overflow on the way |
| Format.AtoiInvertsPrinting | pintos/src/lib/stdlib.c:9-41 | reads back the %d rendering of every 32-bit int, the smallest included |
| Format.SpaceSkipped | pintos/src/lib/stdlib.c:9-22 | exactly the six space characters of C are skipped ahead of a number |
| Format.FormatInteger | pintos/src/lib/stdio.c:469-547 | never leaves its 64-byte buffer, for any 64-bit value, base, flags, width and precision, and outputs sign, prefix, padding and digits in place |
| Format.TextLength | pintos/src/lib/stdio.c:523-547 | max(width, body) characters, unless both - and 0 are in force, which doubles the padding |
| Conversions.ParseConversion | pintos/src/lib/stdio.c:339-460 | flags, width, precision and size as the specification says, for every format string and every `*` argument |
| Conversions.BothInForce | pintos/src/lib/stdio.c:372-416 | - and 0 are both in force if and only if 0 is given, - is not, a negative `*` is the width and there is no precision |
| Conversions.PaddedTwice | pintos/src/lib/stdio.c:372-547 | so an integer shorter than its width comes out longer than that for exactly these specifications |
| Conversions.PaddedTwiceExample | pintos/src/lib/stdio.c:372-547 | %0*d with -5 and 7 prints nine characters |
| Conversions.ParseInvertsWriting | pintos/src/lib/stdio.c:339-460 | writing a conversion out and parsing it gives it back, whatever follows |
| Conversions.ParsedAgain | pintos/src/lib/stdio.c:339-460 | so every specification but those with both flags in force has an equal one without `*` |
| Format.DigitsDecode | pintos/src/lib/stdio.c:497-521 | the digits decode to the value whatever the grouping, precision and flags |
| Format.ValueGrouped | pintos/src/lib/stdio.c:497-507 | so do the digits of the first loop |
| Format.AccumulateDigits | pintos/src/lib/stdio.c:497-507 | the buffer holds the grouped digits backwards, in at most 29 characters |
| Format.AppendZeros | pintos/src/lib/stdio.c:509-521 | zeros up to the precision, 63 at most, and for # in base 8 |
| Format.FormatString | pintos/src/lib/stdio.c:560-572 | the string padded to the width on the proper side |
| Format.Vsnprintf | pintos/src/lib/stdio.c:25-52 | stores the longest prefix that fits and a terminator, touches nothing beyond, and returns the full length |
| Format.VsnprintfAux.Output | pintos/src/lib/stdio.c:45-52 | a character is stored only while there is room, but always counted |
| Printf.Vprintf | pintos/src/lib/stdio.c:156-336 | the loop prints literal characters, %% and every complete conversion as specified, fetching each argument once and in order |
| Printf.Convert | pintos/src/lib/stdio.c:181-334 | the switch: the argument cut to its size, the base, padding and precision of each conversion character, and the text for those that are not supported |
| Printf.Snprintf | pintos/src/lib/stdio.c:25-72 | what is printed, cut off at the buffer's size and ended by a null; the length of the whole is returned |
| Printf.MeantJoin | pintos/src/lib/stdio.c:339-460 | what a complete specification means does not depend on the text or the arguments behind it |
| Printf.PrintedJoin | pintos/src/lib/stdio.c:156-336 | a format that uses up its arguments prints the same ahead of any other format and arguments |
| Printf.EscapedPrints | pintos/src/lib/stdio.c:161-179 | every text is printed as it is once its percent signs are doubled |
| ReadBack.AtoiInvertsConversion | pintos/src/lib/stdlib.c:10-45 | atoi reads back what a signed decimal conversion prints, for every value, width, precision and flags other than the grouping one |
| ReadBack.DecimalReadsBack | pintos/src/lib/stdio.c:156-336 | printing any int with %d and reading it with atoi gives it back |
| ReadBack.SignedReadsBack | pintos/src/lib/stdio.c:185-226 | %d and %i print the low 8, 16, 32 or 64 bits of the argument as a two's complement number, for atoi to read |
| ReadBack.UnsignedReadsBack | pintos/src/lib/stdio.c:228-281 | %u prints the argument modulo 2^8, 2^16, 2^32 or 2^64 by its size, for atoi to read |
| ReadBack.NumberInvertsConversion | pintos/src/lib/stdio.c:469-547 | reading by character arithmetic gives back what is printed in octal or hexadecimal |
| ReadBack.BaseReadsBack | pintos/src/lib/stdio.c:228-281 | %o prints the same number in digits 0 to 7, %x and %X in hexadecimal with small and with capital letters |
| ReadBack.CharPrints | pintos/src/lib/stdio.c:283-289 | %c prints the character of the low 8 bits in its field |
| ReadBack.StringPrints | pintos/src/lib/stdio.c:291-303 | %s prints its string, or (null), up to the precision, in its field |
| ReadBack.PointerReadsBack | pintos/src/lib/stdio.c:305-316 | %p prints the address in hexadecimal, behind 0x unless it is null |
| ReadBack.UnsupportedPrints | pintos/src/lib/stdio.c:317-330 | every other conversion prints the one of two notes that is for it |
| ReadBack.SizeBits | pintos/src/lib/stdio.c:418-457 | hh, h, ll and j, and l, t, z or nothing stand for 8, 16, 64 and 32 bits of the argument |
| ReadBack.TextLaidOut | pintos/src/lib/stdio.c:469-547 | sign, prefix, zeros, digits and spaces of every number but one with both flags in force: a sign where the flags ask for one, as many digits as the precision asks for and no zero beyond, a comma at exactly every group |
| ReadBack.NumberLaidOut | pintos/src/lib/stdio.c:185-281 | so does a whole call lay out its number, by the flags, width and precision in the format |
| ReadBack.PointerLaidOut | pintos/src/lib/stdio.c:305-316 | and %p its address, by width and precision alone |

## Left out

- Hardware and assembly: device drivers, interrupt gates, the context switch, the loader and TLB invalidation; the x86 divide is a function that must not trap.
- Process loading, the system call dispatcher, the console, the user programs and the programs pintos0-2 (near copies of list, hash and bitmap); vm/page.c only wraps the hash table.
- list_max, list_min, list_size, list_pop_back: they add only easy members beside the sort and the ordered insertion.
- KernelList.Splice: requires the range and the place it goes to in one list, as list_sort has them; moving a range between two lists is not modelled.
- Malloc: calls are whole steps, as each descriptor's lock makes them; interleavings inside malloc and free are not modelled, and calloc is not. Free lists are sequences of blocks, so free's unlinking is on those and not on list nodes.
- Malloc.Allocator.Realloc: does not state the bytes that memcpy carries over, because blocks have no contents here.
- Palloc: the two pools' locks and the kill pattern are not modelled; a call is one step.
- Palloc.PageAllocator.GetMultiple: does not state the zero fill of PAL_ZERO, because pages have no contents here, nor the panic of PAL_ASSERT, after which nothing runs.
- Palloc.PageAllocator.FreeMultiple: requires a whole group that was handed out; the source checks page by page, so freeing part of a group is not modelled.
- Bitmap.Bitmap.constructor: does not model the null result when memory runs out.
- HashTable.Hash.constructor: does not model the failure when memory runs out.
- PageDirectory.PageDir.constructor: does not model the null result when memory runs out.
- Synch: the semaphore's unsigned value does not wrap. Condition variables are left out, since their waiters' order is not decided at insertion.
- Synch, Alarm: which ready thread runs next, and preemption after sema_up, are not modelled; statements hold for every choice.
- Donation: a thread's lock_waiter list is a sequence, changed by the functions that the list methods are proved to compute, so unlinking while iterating is on positions and not on list nodes.
- DonationRuns, LockRuns: each call into the donation code is one step, though interrupts stay on within it; a tick inside a call is not modelled, but for the one between the test of the holder and the registration. LockRuns has the semaphores' values; their waiters are in Synch.
- DonationRuns.BeforeDown: requires that the caller's list element is on no list; StaleRun shows that it can be on one, and inserting it again would corrupt the C list.
- BsdScheduler: more than 500 ready threads are not considered, and the idle thread is required not to create threads; the choice of the next thread is arbitrary.
- BsdScheduler.Scheduler.Exit: requires that another thread is there to run, because the idle thread never exits.
- BsdScheduler.Scheduler.SetNice: requires nice values in [-20, 20], because the bounds depend on them and the source does not check.
- FileSystem: the header bytes of an inode are a map from its sector to start and length. Closing the free map's file at shutdown and reading it back are left out.
- FileSystem.FileSystem.FileClose: requires another file than the free map's own, because free_map_close leaves a dangling pointer to it.
- Directory: no read or write of records runs out of memory, because a short read would end a search early.
- Directory.Dir.DirLookup: does not state the opening of the inode, which Filesys.DirLookup does.
- Filesys.DirLookup: does not model a search cut short for want of a bounce buffer.
- Filesys.DirRemove: does not model a search or an erasure cut short for want of a bounce buffer.
- Filesys.CreateIn: does not model a bounce buffer that cannot be had in the directory's own reads and writes.
- Filesys.FilesysCreate: does not model that either.
- Filesys.FilesysOpen: does not model a search cut short for want of a bounce buffer.
- Filesys.FilesysRemove: does not model a search or an erasure cut short for want of a bounce buffer.
- HashTable: buckets are sequences of elements instead of linked lists, so relinking is not repeated; hash_clear, hash_apply and the string hashes are left out.
- PageDirectory: page tables are sequences in a map keyed by physical address; kernel mappings are only shown to stay as they are.
- PageDirectory.PageDir.IsDirty: requires a user address, because the kernel's page tables are not modelled.
- PageDirectory.PageDir.SetDirty: requires a user address, for the same reason.
- PageDirectory.PageDir.IsAccessed: requires a user address, for the same reason.
- PageDirectory.PageDir.SetAccessed: requires a user address, for the same reason.
- Ustar: file names are sequences of bytes without a null; the diagnostic printed for a long name is left out.
- Format.Vsnprintf: takes the characters that are printed as an argument, because Printf.Snprintf has them from Printf.Vprintf; the count does not wrap at 2^31.
- Printf: a format whose last conversion is cut off and missing or mismatched arguments are excluded, since C leaves them undefined; the text for an unsupported conversion is not printed by a recursive call.
- Conversions.ParseConversion: requires an argument for each `*`, without which C leaves the call undefined; widths and precisions do not wrap at 2^31.
