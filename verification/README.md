# Threads, a file cache and a factorial: a Dafny model

This project models three pieces of a systems-programming course repository
and proves properties of them.

1. **The user-level thread library** (`marker/os-244/threads/thread.c`). It
   keeps a fixed table of thread control blocks, the running thread, a global
   ready queue, wait queues, and an exit-status array. On top of these it
   provides:
   - `thread_create`, `thread_yield`, `thread_exit` and `thread_kill`;
   - `thread_sleep`, `thread_wakeup`, `thread_wait` and `thread_awaken`;
   - locks and condition variables.

   The scheduler is an immutable record: `Scheduler.Sched`. Each operation
   is one pure transition, taken up to the context switch. The result is
   `Ok(ret, state)`: the state at the moment of the switch, and the value the
   caller's call returns once it is resumed. A failed `assert`, a NULL
   dereference, an access outside an array or a use of a freed wait queue
   ends in `Fault`. The process exit in `thread_exit` is `Halt`.

   The circular thread-id queue is modelled twice:
   - abstractly, as a `seq<int>` (`TidQueue`);
   - as the array ring with `head`, `tail` and `size` (`RingQueue`).

   Every corrected ring operation (`Pop`, `Add`, `Remove`) is proved to
   refine its abstract counterpart. `RemoveAsWritten` agrees with the
   abstract removal except on the two defects listed under "## Findings".
   - Modules: `ThreadIds`, `TidQueue`, `RingQueue`, `Scheduler`, `Blocking`
     (wait queues, sleep, wakeup, join), `Sync` (locks and condition
     variables), `Scenarios` (create, join, exit, read the exit code).

2. **The web server's cache and request buffer** (`webserver/server_thread.c`):
   - the djb2 `hash_func` and `linear_search`;
   - the chained hash table with a byte budget (`cache_init`, `cache_lookup`,
     `cache_insert`, `cache_evict`);
   - the largest-file-first (LFF) sorted list (`q_insert_sorted`, `q_remove`);
   - the bounded `conn_buf` ring of connection descriptors, shared by
     `server_request` and the worker threads.

   An entry is a file name and its size. File contents are not modelled.
   `CacheLaws` proves that the cache and the LFF list stay in agreement
   (`FileCache.Coherent`) under the corrected insertion. It also proves that
   eviction frees the largest files first.
   - Modules: `Files`, `LffList`, `FileCache`, `CacheLaws`, `RequestBuffer`.

3. **`fact` and its command line** (`warmup/fact.c`), in module `Factorial`.
   `fact(0)` is 0, as the source defines it on purpose. Arguments are checked
   to be all digits. Anything above 12 is rejected as an overflow.

Behaviour as written and behaviour as corrected are separate members where
they differ. For example, `RingQueue.RemoveAsWritten` is the as-written
`q_remove` and `RingQueue.Remove` the corrected one. The rest of the model
uses the corrected member; "## Findings" lists each difference.

The values of the thread library's constants come from its header, `thread.h`,
which is not part of this model. They are assumed to be:
- `THREAD_ANY` = -1 and `THREAD_SELF` = -2;
- `THREAD_INVALID` = -3 and `THREAD_NONE` = -4;
- `THREAD_NOMORE` = -5 and `THREAD_NOMEMORY` = -6;
- `THREAD_MAX_THREADS` = 1024.

The test `id < -2` in `t_invalid` is consistent with ANY and SELF being the
only accepted negative ids.

## Model

A definition without a contract of its own (`Factorial.Fact`, `Scheduler.Invalid`,
`TidQueue.Pop`, `TidQueue.Add`, `FileCache.Djb2`, `Blocking.JoinRejected`) is described
by the lemma rows that cite its lines.

| member | source | states |
|---|---|---|
| Factorial.FactIsFactorial | warmup/fact.c:4-8 | fact(n) is n! for every n at least 1, and fact(0) is 0 where 0! is 1 |
| Factorial.FactMonotone | warmup/fact.c:4-8 | fact never decreases as its argument grows |
| Factorial.FitsUpToTwelve | warmup/fact.c:30-33 | every argument up to 12 has a factorial within INT_MAX, and 13 is the first whose factorial exceeds it, so 12 is the right bound |
| Factorial.CheckDigits | warmup/fact.c:21-26 | the validation loop accepts a string exactly when every character is a decimal digit |
| Factorial.Run | warmup/fact.c:10-37 | main prints "Huh?" exactly when the argument is missing or has a non-digit; it prints "Overflow" exactly when the digits denote more than 12; otherwise it prints fact of the parsed number |
| Factorial.PrintedValueFits | warmup/fact.c:28-35 | every printed value lies in 0..INT_MAX, and for arguments of at least 1 it is the factorial of the argument |
| Factorial.SampleRuns | warmup/fact.c:10-37 | "5" prints 120, "" and "0" print 0, "13" prints Overflow, "1x" and a missing argument print Huh? |
| TidQueue.Remove | marker/os-244/threads/thread.c:109-139 | reports true exactly when the id is queued; then exactly its first occurrence is deleted and the other ids keep their order; otherwise the queue is unchanged |
| TidQueue.AddAllAppends | marker/os-244/threads/thread.c:141-152 | ids added one by one to a queue with room for all of them end up appended in order, without duplicate checks |
| TidQueue.DrainInOrder | marker/os-244/threads/thread.c:94-107 | popping until NONE yields exactly the queue, front first |
| TidQueue.Fifo | marker/os-244/threads/thread.c:94-152 | ids come out of pops in the order adds put them in |
| TidQueue.AddKeepsFront | marker/os-244/threads/thread.c:94-152 | an add at the back of a non-empty queue does not change which id pops next, and it commutes with the pop |
| TidQueue.AddAllEmpty | marker/os-244/threads/thread.c:141-152 | adding a sequence of ids leaves the queue empty only when the queue and the sequence were both empty |
| RingQueue.Init | marker/os-244/threads/thread.c:85-92 | q_init gives a well-formed ring that holds no ids |
| RingQueue.WrapIsMod | marker/os-244/threads/thread.c:100 | advancing an index by less than one lap is the source's `% THREAD_MAX_THREADS` |
| RingQueue.CRem | marker/os-244/threads/thread.c:125 | C's `%` agrees with the mathematical remainder on non-negative operands and is never positive on a negative one |
| RingQueue.Pop | marker/os-244/threads/thread.c:94-107 | an empty ring gives NONE and stays unchanged; otherwise head advances around the ring and size drops by one, keeping the ring well formed |
| RingQueue.PopRefines | marker/os-244/threads/thread.c:94-107 | q_pop on the ring returns the abstract queue's front and leaves exactly its remainder |
| RingQueue.Add | marker/os-244/threads/thread.c:141-152 | a full ring is unchanged; otherwise the id is written at tail and size grows by one, keeping the ring well formed |
| RingQueue.AddRefines | marker/os-244/threads/thread.c:141-152 | q_add on the ring is the abstract append-unless-full |
| RingQueue.AddEachRefines | marker/os-244/threads/thread.c:141-152 | a series of q_add calls on the ring is the abstract series of appends |
| RingQueue.ScanAsWritten | marker/os-244/threads/thread.c:113-114 | the search loop as written finds nothing in a full ring, and on any other ring finds the id exactly when it is queued, at its first position |
| RingQueue.Scan | marker/os-244/threads/thread.c:113-136 | the corrected search finds the id exactly when it is queued, at its first position, on every ring |
| RingQueue.ShiftAsWritten | marker/os-244/threads/thread.c:120-124 | the shift loop moves every element after position k one place toward the front and leaves the ones before k |
| RingQueue.Shift | marker/os-244/threads/thread.c:120-124 | the same shift, also on a full ring |
| RingQueue.ClosedGap | marker/os-244/threads/thread.c:125-126 | after the shift, pulling tail back one slot gives a well-formed ring holding the old elements without position k |
| RingQueue.LastSlot | marker/os-244/threads/thread.c:125 | the last element's slot is `(tail - 1 + N) % N`, which is `tail - 1` when tail is positive |
| RingQueue.RemoveAsWritten | marker/os-244/threads/thread.c:109-139 | q_remove as written reports not-found on a full ring and for an absent id; for a queued id it writes outside the array when tail is 0; otherwise it removes the first occurrence as the abstract queue does |
| RingQueue.Remove | marker/os-244/threads/thread.c:109-139 | the corrected q_remove keeps the ring well formed and agrees with the abstract removal on every ring, in its result and its contents |
| RingQueue.ChurnAdvances | marker/os-244/threads/thread.c:94-152 | n add/pop pairs on an empty ring leave it empty with head advanced by n modulo the capacity |
| RingQueue.TailWrapReachable | marker/os-244/threads/thread.c:125 | from the initial ring, 1023 add/pop pairs and one add give a well-formed ring holding one id whose tail is 0 |
| RingQueue.FullQueueReachable | marker/os-244/threads/thread.c:141-152 | 1024 adds fill an empty ring, giving a full ring that holds id 5 |
| Scheduler.Init | marker/os-244/threads/thread.c:181-196 | thread 0 runs alone, every other slot is empty, the ready queue is empty, and only exit status 0 is INVALID because the one-element initialiser at line 66 leaves the rest 0 |
| Scheduler.InvalidCharacterised | marker/os-244/threads/thread.c:79-81 | an id passes t_invalid exactly when it is ANY, SELF, 0, or names an existing thread that is not DEAD; id 0 always passes |
| Scheduler.Reap | marker/os-244/threads/thread.c:168-177 | the pass frees exactly the DEAD slots other than the running one and destroys their join queues; it faults exactly when one of those join queues is missing or non-empty; nothing else changes |
| Scheduler.ReapKeepsLive | marker/os-244/threads/thread.c:168-177 | reaping leaves every live thread's block, validity, liveness and sleeping state as they were |
| Scheduler.ReapKeepsOwnJoin | marker/os-244/threads/thread.c:168-177 | reaping leaves the running thread's block, its join queue and its joiners untouched |
| Scheduler.FreeSlot | marker/os-244/threads/thread.c:224-236 | the slot search returns the lowest slot at or after its start that is empty or DEAD, or the end when every slot is live |
| Scheduler.Place | marker/os-244/threads/thread.c:224-274 | returns NOMORE exactly when every slot is live, and NOMEMORY only on an allocation failure; otherwise the lowest non-live slot becomes a READY thread appended to the ready queue; the wait queues, exit codes and handle counter are untouched |
| Scheduler.Create | marker/os-244/threads/thread.c:215-275 | thread_create reaps first; it faults exactly when reaping does; it returns NOMORE exactly when every slot is live; on success the lowest free slot is READY at the back of the ready queue and every other slot is its reaped self; on NOMORE or NOMEMORY the reaped state is kept with the ready queue unchanged; exit codes and the handle counter are untouched, and the only wait queues freed are the join queues of reaped threads |
| Scheduler.PopLive | marker/os-244/threads/thread.c:289-297 | the ANY loop pops past empty and DEAD entries and returns the first live one, leaving the rest; it returns NONE with an empty queue exactly when no entry is live |
| Scheduler.Requeue | marker/os-244/threads/thread.c:310-315 | a RUNNING caller becomes READY at the back of the ready queue and a reaping pass runs; a caller in any other state is left alone |
| Scheduler.SwitchTo | marker/os-244/threads/thread.c:325-330 | the target leaves the ready queue, becomes RUNNING and becomes the running thread, and the caller is requeued if it was RUNNING; a fault is possible only when the caller was RUNNING, so that a reaping pass ran, or when the target is a slot 0 that is empty or DEAD |
| Scheduler.YieldAny | marker/os-244/threads/thread.c:289-297 | with no live entry in the ready queue, the queue is emptied and NONE is returned with nothing else changed |
| Scheduler.YieldAnyPicks | marker/os-244/threads/thread.c:289-330 | a successful yield to ANY picks the first live ready entry: it either stays on the caller, if the caller was picked, or switches to that thread |
| Scheduler.YieldAnyTakesFront | marker/os-244/threads/thread.c:289-297 | a live thread at the front of the ready queue is the one chosen |
| Scheduler.YieldAnyOutcome | marker/os-244/threads/thread.c:289-330 | the chosen thread was queued and live, and after the switch it is the RUNNING thread with the exit statuses unchanged; a caller that was not RUNNING keeps its state |
| Scheduler.Yield | marker/os-244/threads/thread.c:277-334 | an invalid id returns INVALID and changes nothing; ANY is the pick-first-live loop; SELF or the caller's own id removes the caller from the ready queue without switching; any other id switches to that thread |
| Scheduler.MarkDead | marker/os-244/threads/thread.c:342-355 | the caller becomes DEAD and leaves the ready queue, its code is stored, and its joiners are appended to the ready queue in FIFO order with their join queue emptied; a freed join queue is a fault |
| Scheduler.ExitBookkeeping | marker/os-244/threads/thread.c:339-355 | the reap followed by the bookkeeping of thread_exit, with the same effect on the ready queue, the statuses and the wait queues |
| Scheduler.ExitYield | marker/os-244/threads/thread.c:357-363 | the process exits with the code exactly when the ready queue is empty; otherwise the yield to ANY runs a queued thread other than the caller, or returns NONE |
| Scheduler.Exit | marker/os-244/threads/thread.c:336-364 | thread_exit stores the code and marks the caller DEAD; it halts exactly when no other thread is ready and no joiner waits; otherwise the thread it runs comes from the new ready queue, and is its front when that front is a live thread other than the caller |
| Scheduler.Awaken | marker/os-244/threads/thread.c:508-522 | a SLEEPING thread becomes READY, leaves the queue it sleeps on and joins the back of the ready queue, and faults exactly when that wait queue was already freed (a joiner left SLEEPING by thread_exit whose join queue the reaping pass freed); a valid id that is not SLEEPING, and an invalid id, change nothing; ANY and SELF index the table out of bounds, and id 0 with an empty slot passes t_invalid and is dereferenced, both faults |
| Scheduler.MarkKilled | marker/os-244/threads/thread.c:377-382 | a sleeping target is awakened first; then the target is marked KILLED and to exit when resumed, and its id is returned |
| Scheduler.Kill | marker/os-244/threads/thread.c:366-386 | the corrected thread_kill returns INVALID for invalid ids, for ANY, SELF and the caller; otherwise it returns the id with the target KILLED and awakened if it slept; it faults exactly when reaping faults, when target 0 has no live block, or when a sleeping target's wait queue is freed |
| Scheduler.KillAfterReap | marker/os-244/threads/thread.c:370-377 | after the reap in thread_kill, a live target is untouched, and the target's slot is empty or its wait queue freed exactly when the kill faults |
| Scheduler.KillAsWritten | marker/os-244/threads/thread.c:372-377 | thread_kill as written agrees with the corrected kill on every non-negative id, and faults on ANY and SELF because they pass the validity check |
| Scheduler.KillSentinelFaults | marker/os-244/threads/thread.c:372-377 | killing ANY or SELF faults as written, while the corrected kill returns INVALID |
| Scheduler.Resume | marker/os-244/threads/thread.c:379-381 | a thread not killed resumes unchanged; a killed thread resuming runs thread_exit with code 9, so it halts with 9 or ends DEAD with exit status 9 |
| Blocking.WaitQueueCreate | marker/os-244/threads/thread.c:393-409 | returns a fresh handle whose queue is empty, and every other queue, the table and the ready queue are unchanged |
| Blocking.WaitQueueDestroy | marker/os-244/threads/thread.c:411-421 | NULL is a no-op; destroying a non-empty or already freed queue is a fault; otherwise only that queue is removed |
| Blocking.CreateThenDestroy | marker/os-244/threads/thread.c:393-421 | destroying a just-created queue restores the state, except that the handle counter has moved on |
| Blocking.SleepYields | marker/os-244/threads/thread.c:438-444 | once the caller is enqueued SLEEPING, the yield to ANY cannot fault and gives the documented sleep outcome |
| Blocking.Sleep | marker/os-244/threads/thread.c:423-445 | a NULL queue returns INVALID; an empty ready queue returns NONE without enqueueing; a freed queue is a fault; otherwise the caller is SLEEPING at the back of the queue and the yield to ANY runs, choosing a live front of the ready queue |
| Blocking.MoveToReady | marker/os-244/threads/thread.c:466-471 | the popped threads become READY and are appended to the ready queue in order; an empty slot among them is a fault |
| Blocking.Wakeup | marker/os-244/threads/thread.c:449-475 | a NULL or empty queue returns 0; otherwise exactly one thread, or all of them, leave the front of the queue in FIFO order, become READY at the back of the ready queue, and their number is returned |
| Blocking.WakeOneThenAll | marker/os-244/threads/thread.c:449-475 | waking one and then all moves the whole queue to the ready queue in its original order |
| Blocking.JoinQueue | marker/os-244/threads/thread.c:490-495 | the first joiner creates the target's join queue and gets the target's id; a later joiner reuses it and gets INVALID |
| Blocking.Join | marker/os-244/threads/thread.c:478-506 | a negative, out-of-range, missing or own id returns INVALID; otherwise, when another thread is ready, the caller sleeps at the back of the target's join queue, even when it was not the first joiner and gets INVALID; a freed join queue is a fault |
| Blocking.JoinKeepsOthers | marker/os-244/threads/thread.c:478-506 | a join changes only the caller, the target and the thread switched to |
| Blocking.JoinTakesFront | marker/os-244/threads/thread.c:497 | a live thread at the front of the ready queue is the one a joiner switches to |
| Blocking.JoinFinish | marker/os-244/threads/thread.c:499-502 | the first joiner, when it asks for the code, reads the stored exit status and resets it to INVALID; otherwise nothing changes |
| Sync.LockCreate | marker/os-244/threads/thread.c:530-544 | a new lock has no owner and a fresh empty queue |
| Sync.LockDestroy | marker/os-244/threads/thread.c:546-558 | succeeds exactly on a lock without owner whose queue exists and is empty, and then frees that queue |
| Sync.LockCreateThenDestroy | marker/os-244/threads/thread.c:530-558 | destroying a fresh lock restores the state, except the handle counter |
| Sync.LockAcquire | marker/os-244/threads/thread.c:560-575 | a NULL lock or re-acquiring by the owner fails its assert; a free lock becomes the caller's; a held lock puts the caller to sleep on its queue, or spins when nothing else is ready |
| Sync.LockRelease | marker/os-244/threads/thread.c:577-590 | only the owner may release; the owner is cleared and every waiter of the lock leaves its queue, front first, becomes READY and is appended to the ready queue; the release fails exactly when the lock's queue was freed or one of its waiters has an empty slot |
| Sync.AcquireThenRelease | marker/os-244/threads/thread.c:560-590 | acquiring a free, unwaited lock and releasing it restores both the scheduler and the lock |
| Sync.ReleaseThenAcquire | marker/os-244/threads/thread.c:560-590 | after a release the lock is free, and the next acquirer takes it at once |
| Sync.ReleaseThenDestroy | marker/os-244/threads/thread.c:546-590 | a released lock has no owner and no waiter left, so it can be destroyed at once |
| Sync.CvCreate | marker/os-244/threads/thread.c:597-610 | a new condition variable has a fresh empty queue |
| Sync.CvDestroy | marker/os-244/threads/thread.c:612-622 | succeeds exactly when the condition variable's queue exists and is empty |
| Sync.CvWait | marker/os-244/threads/thread.c:624-636 | without a held lock, or when the release fails, the call fails; when suspended, the lock is free, its waiters are READY, its queue is empty, the caller is SLEEPING at the back of the condition variable's queue, nothing else changed, and the front of the old ready queue followed by the lock's waiters, when it is live and not the caller, is running with the rest as the ready queue; a re-acquired lock leaves the caller running with nothing ready, and with nothing ready and no lock waiter that is what happens, in an unchanged state |
| Sync.CvWaitThenSignal | marker/os-244/threads/thread.c:560-648 | after cv_wait suspends the only waiter, the next thread takes the free lock at once and its cv_signal wakes that waiter, READY at the back of the ready queue |
| Sync.CvSignal | marker/os-244/threads/thread.c:638-648 | with the lock held it wakes at most one waiter of the condition variable; otherwise the assert fails |
| Sync.CvBroadcast | marker/os-244/threads/thread.c:650-660 | with the lock held it wakes every waiter and empties the condition variable's queue; otherwise the assert fails |
| Scenarios.CreateFromInit | marker/os-244/threads/thread.c:215-275 | the first thread_create after thread_init returns 1, with thread 1 READY and queued |
| Scenarios.FirstJoin | marker/os-244/threads/thread.c:478-506 | thread 0 joining thread 1 sleeps alone on thread 1's join queue while thread 1 runs |
| Scenarios.ExitWakesJoiner | marker/os-244/threads/thread.c:336-364 | thread 1 exiting stores its code and switches back to its joiner, thread 0 |
| Scenarios.JoinReceivesExitCode | marker/os-244/threads/thread.c:499-502 | create, join and exit in sequence give the joiner the exact exit code, which is then reset to INVALID |
| RequestBuffer.Init | webserver/server_thread.c:409-419 | the buffer has max_requests + 1 free slots and holds nothing; a negative max_requests gives no buffer |
| RequestBuffer.OccupancyIsCExpression | webserver/server_thread.c:447-448 | the occupancy is the source's `(head - tail + cap) % cap` |
| RequestBuffer.AdvanceIsCExpression | webserver/server_thread.c:455 | advancing an index by one is the source's `(i + 1) % cap` |
| RequestBuffer.FullIffAtCapacity | webserver/server_thread.c:447-448 | at most max_requests descriptors are ever queued, and the producer's test is true exactly at that count |
| RequestBuffer.EmptyIffNothingQueued | webserver/server_thread.c:375 | the consumer's `head == tail` test is true exactly when nothing is queued |
| RequestBuffer.Produce | webserver/server_thread.c:447-455 | a full buffer makes the producer wait; a non-free slot at head fails the assert; otherwise the descriptor is written at head and head advances |
| RequestBuffer.ProduceAppends | webserver/server_thread.c:447-455 | on a valid buffer with room the assert holds, the descriptor joins the back of the queue, and the buffer stays valid |
| RequestBuffer.Consume | webserver/server_thread.c:375-387 | an empty buffer makes the consumer wait; otherwise it takes the descriptor at tail, frees the slot and advances tail |
| RequestBuffer.ConsumeTakesOldest | webserver/server_thread.c:384-387 | the consumer takes the oldest queued descriptor and the buffer stays valid |
| RequestBuffer.DrainAll | webserver/server_thread.c:375-387 | consuming until empty yields exactly the queued descriptors, oldest first |
| RequestBuffer.FillFrom | webserver/server_thread.c:447-455 | producing a series of descriptors appends them in order and stops only at a full buffer |
| RequestBuffer.Fifo | webserver/server_thread.c:375-455 | two descriptors produced into an empty buffer are consumed in the same order |
| RequestBuffer.NoRequestsAlwaysWaits | webserver/server_thread.c:409 | with max_requests 0 the one slot must stay free, so every producer waits |
| Files.FoundIffPresent | webserver/server_thread.c:60-67 | the `strcmp` walk stops on an entry exactly when the name is present |
| Files.DeleteAt | webserver/server_thread.c:225-246 | unlinking one node removes exactly one copy of its name and its size |
| FileCache.Djb2IsPoly | webserver/server_thread.c:52-58 | the 64-bit wrapping djb2 recurrence is the unbounded polynomial reduced modulo 2^64 |
| FileCache.HashFunc | webserver/server_thread.c:52-58 | the bucket lies in [0, size) for every positive int size, and a size that converts to 0 is a division by zero |
| FileCache.HashLoop | webserver/server_thread.c:52-58 | the byte-by-byte loop computes the same bucket as the recursive definition |
| FileCache.ToInt | webserver/server_thread.c:57 | converting the unsigned result to int keeps every value below 2^31 and stays within the int range |
| FileCache.LinearSearch | webserver/server_thread.c:60-67 | the chain search returns the first entry with the name, and nothing exactly when no entry has it |
| FileCache.CacheInit | webserver/server_thread.c:70-82 | the table starts empty with nothing accounted; it has chains exactly when the budget is at least 12288 bytes |
| FileCache.InitCoherent | webserver/server_thread.c:70-82 | a freshly initialised cache and an empty LFF list agree |
| FileCache.CacheLookup | webserver/server_thread.c:98-112 | an empty name misses; a hit carries the name looked up; a table without chains divides by zero |
| CacheLaws.LookupIffCached | webserver/server_thread.c:98-112 | on a coherent cache with chains, a lookup of a non-empty name never faults and hits exactly when the name is cached |
| FileCache.EvictRound | webserver/server_thread.c:156-183 | a round runs dry exactly on an empty list; otherwise the head node is popped, and if its name is cached that entry is unlinked and its size taken off the byte count |
| CacheLaws.RoundOk | webserver/server_thread.c:156-183 | on a coherent cache a round always finds the popped file, unlinks it and leaves cache and list coherent |
| FileCache.EvictFrom | webserver/server_thread.c:156-183 | when the loop finishes it has freed at least the bytes asked for, and the byte count dropped by exactly the bytes freed |
| FileCache.Evict | webserver/server_thread.c:151-185 | asking for more than the budget returns 0 and changes nothing; otherwise the count drops by exactly the freed bytes, which are at least those asked for, and never goes negative |
| CacheLaws.EvictFromOk | webserver/server_thread.c:151-185 | on a coherent cache asked for no more than is cached, eviction always succeeds, keeps cache and list coherent, and conserves bytes |
| CacheLaws.EvictFromSuffix | webserver/server_thread.c:156-162 | the evicted files are a prefix of the LFF list, so the largest files go first |
| FileCache.Store | webserver/server_thread.c:131-142 | the entry is prepended to the chain its name hashes to and its size is added to the count; it fails exactly when hashing faults or the bucket is outside the table |
| FileCache.CacheInsertAsWritten | webserver/server_thread.c:116-148 | a file at least as large as the budget leaves everything unchanged; a file that overflows the budget is preceded by an eviction asked for the file's own size; a successful insertion puts the entry at the head of its hash chain in the evicted cache, adds its size to the byte count left by eviction, and places it in the evicted LFF list at the position of q_insert_sorted as written |
| FileCache.CacheInsert | webserver/server_thread.c:116-148 | the corrected insertion leaves a table without chains, or an oversized file, alone, and keeps the table's shape; otherwise it evicts at least the overflow, then puts the entry at the head of its hash chain, adds its size to the byte count and places it in the LFF list after every node at least as large, counting it |
| CacheLaws.StoreKeepsCoherent | webserver/server_thread.c:131-145 | storing a file that fits and queueing it keeps cache and list coherent, adds exactly its name, and makes it the first hit of its name |
| CacheLaws.InsertKeepsCoherent | webserver/server_thread.c:116-148 | the corrected cache_insert on a coherent cache never fails and keeps it coherent; when the table has chains it caches every file smaller than the budget, and for a non-empty name looking it up then hits it |
| CacheLaws.InsertAsWrittenWithinBudget | webserver/server_thread.c:121-142 | when cache_insert as written succeeds, a count within the budget stays within it |
| CacheLaws.InsertAgreesWhenRoom | webserver/server_thread.c:116-148 | the written and corrected insertions agree when the file fits without eviction and the list is non-empty |
| LffList.InsertAsWritten | webserver/server_thread.c:250-283 | an empty list gets the node without the count growing; otherwise the node goes before the first smaller node, or is appended through tail, which fails when tail is NULL or freed |
| LffList.Insert | webserver/server_thread.c:250-283 | the corrected insertion counts the node on the empty branch too and is otherwise the written one |
| LffList.InsertKeepsOrder | webserver/server_thread.c:250-283 | the corrected insertion on a well-kept list never fails, keeps it sorted with a correct count and tail, and adds exactly the entry's name and size |
| LffList.InsertPlacesEntry | webserver/server_thread.c:264-278 | the new entry lands after every node at least as large, including equal sizes, and before every smaller one, with the other nodes in their order |
| LffList.InsertThenRemove | webserver/server_thread.c:225-283 | removing a freshly inserted name that was absent restores the list |
| LffList.Remove | webserver/server_thread.c:225-246 | an absent name leaves the list unchanged; otherwise exactly the first node with the name is unlinked and the count drops by one |
| LffList.RemoveOk | webserver/server_thread.c:225-246 | removal takes exactly one copy of the name off and keeps a well-kept list well kept, with tail repaired |
| LffList.Pop | webserver/server_thread.c:158-161 | the eviction pop returns the head and the remaining nodes; a count reaching 0 sets tail to NULL; an empty list is a NULL dereference |
| LffList.PopLargest | webserver/server_thread.c:158-161 | on a well-kept list the popped file is a largest one and the rest stays well kept |
| LffList.CountDriftLosesTail | webserver/server_thread.c:258-261 | inserting 7000 and 100 bytes, popping one, then inserting 6000 and 50 bytes makes the last insertion append through a NULL tail |
| CacheLaws.SmallCacheDividesByZero | webserver/server_thread.c:132 | in a 10000-byte cache, inserting a 100-byte file as written divides by zero, while the corrected insertion leaves the cache alone |
| CacheLaws.EvictForFileSizeRunsDry | webserver/server_thread.c:127-129 | in a 12288-byte cache holding a 10000-byte file, inserting a 12000-byte file asks to evict 12000 bytes and pops an empty list, while asking for the overflow succeeds |
| CacheLaws.CountDriftCrashesInsert | webserver/server_thread.c:116-148 | in a 12288-byte cache, inserting files of 7000, 100, 6000 and 50 bytes as written fails on the fourth |

## Left out

- Context switching (`getcontext`, `setcontext`, the register writes in `thread_create` and `thread_kill`, stack alignment). A transition stops at the switch. The second return from `getcontext` is the value in `Ok(ret, _)`.
- `malloc` and `free`. An allocation failure in `thread_create` is a boolean parameter. Every other allocation is assumed to succeed. Freed memory is tracked only for wait queues, whose handles leave the map.
- Interrupt masking (`interrupts_off`, `interrupts_set`). Every operation is one atomic transition.
- Debug printing and `q_print`.
- `thread_id` and `thread_stub`. They are trivial, and the stub's call of the thread's function is code this model cannot see.
- Sync.LockAcquire: only one round of the sleep loop is modelled. A held lock with nothing else ready is reported as `Spins`. The wake-up and the retry are separate transitions.
- Scheduler.SwitchTo: takes the target out of the ready queue (thread.c:326) with the corrected `q_remove` (`TidQueue.Remove`). The as-written scan that finds nothing in a full queue (thread.c:113-114) and the write to `array[-1]` when tail is 0 (thread.c:125-126) are shown on the ring in `RingQueue` but not carried into scheduler states.
- Scheduler.Yield: same as SwitchTo. Removing the caller from the ready queue (thread.c:300) uses the corrected removal.
- Scheduler.MarkDead: same as SwitchTo. Removing the exiting thread from the ready queue (thread.c:343) uses the corrected removal.
- Scheduler.Awaken: same as SwitchTo. Removing the thread from its wait queue (thread.c:518) uses the corrected removal.
- Scheduler.MarkDead: joiners woken by `thread_exit` are moved to the ready queue but stay SLEEPING, as written; `thread_awaken` is commented out there.
- The web server's pthread worker pool, mutexes and condition variables. A producer facing a full buffer, or a consumer facing an empty one, is reported as having to wait. `cache_lookup` returns with the mutex still held for an empty name; this is modelled only as a miss.
- `server_exit`, `cache_destroy`, `list_destroy`, `q_destroy` and the frees. They release memory and have no observable bookkeeping.
- Sockets and the request layer (`request_init`, `request_readfile`, `request_sendfile`), and file contents. An entry is a name and a size, so `copy_file_data` is the identity.
- FileCache.CacheInsert: does not model `int` overflow of `current_cache_size` or of a file size. Sizes are unbounded naturals.
- Factorial.Run: `atoi` is read as an unbounded natural, so the overflow of very long digit strings is not modelled.

## Findings

| source | as written | input that shows it | evidently intended | confidence | as-written member | corrected member |
|---|---|---|---|---|---|---|
| marker/os-244/threads/thread.c:125 | `q->tail = (q->tail - 1) % THREAD_MAX_THREADS` gives -1 when tail is 0, and line 126 writes `array[-1]` | from the initial queue, 1023 add/pop pairs and one add (tail wraps to 0), then remove the queued id | the tail moves back to slot 1023 | not executed | RingQueue.RemoveAsWritten | RingQueue.Remove |
| marker/os-244/threads/thread.c:113-114 | the scan runs `while (i != q->tail)` from head, and head equals tail on a full queue, so nothing is scanned | 1024 adds fill the ready queue, then remove id 5: the result is false although 5 is queued | a full queue is searched like any other | not executed | RingQueue.ScanAsWritten | RingQueue.Scan |
| marker/os-244/threads/thread.c:372-377 | `t_invalid` accepts ANY and SELF, and thread_kill then indexes `THREADS[-1]` or `THREADS[-2]` | `thread_kill(THREAD_ANY)` in any state whose reap succeeds | the sentinels are rejected with INVALID | not executed | Scheduler.KillAsWritten | Scheduler.Kill |
| webserver/server_thread.c:132 | cache_insert hashes with `array_size`, which is 0 when the budget is under 12288 bytes; `hash % 0` divides by zero | a 10000-byte cache, insert a 100-byte file | a table without chains caches nothing | not executed | CacheLaws.SmallCacheDividesByZero | FileCache.CacheInsert |
| webserver/server_thread.c:127-128 | cache_evict is asked for the new file's size, not for the overflow, so it can pop past the end of the list | a 12288-byte cache holding a 10000-byte file, insert a 12000-byte file | evict `current + size - max` bytes | not executed | CacheLaws.EvictForFileSizeRunsDry | CacheLaws.InsertKeepsCoherent |
| webserver/server_thread.c:258-260 | the empty-list branch of q_insert_sorted never increments `size`, so the count drifts one below the node count; eviction then sets tail to NULL while a node remains, and a later append goes through the NULL tail | a 12288-byte cache, insert files of 7000, 100, 6000 and 50 bytes | `size` grows on every insertion | not executed | LffList.CountDriftLosesTail | LffList.InsertKeepsOrder |
