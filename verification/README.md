# A Dafny model of coreinit-nx's algorithms and locking protocols

coreinit-nx answers Cafe OS calls with libnx calls. Most of it adapts one interface to the other;
a few modules contain an algorithm or a protocol of their own. This project models those and
proves what they promise:

* **The expanded heap** (`ExpBlocks`, `ExpHeapModel`, `ExpHeapProperties`, class `ExpHeap.HostExpHeap`):
  a general allocator over a guest region with a sorted block list, splitting, merging, two search
  modes and allocation from both ends.
* **The frame heap** (`FrmHeapModel`, `FrmHeapProperties`, class `FrmHeap.HostFrmHeap`): a two-ended
  stack with a stack of recorded states.
* **Calendar and tick arithmetic** (`Calendar`, `Ticks`, class `CalendarTime.OSCalendarTime`): civil
  dates, the tick conversions and the ratios between the two clocks.
* **The blocking primitives**: message queues (`MessageRing`, `MessageQueueModel`, `MessageQueueProperties`,
  class `MessageQueue.HostQueue`), recursive mutexes with condition variables (`RecursiveMutexModel`,
  `RecursiveMutexProperties`, class `RecursiveMutex.HostMutex`), events (`EventModel`, `EventProperties`, class
  `Event.HostEvent`) and semaphores (`SemaphoreModel`, `SemaphoreProperties`, class `Semaphore.HostSemaphore`).
* **The alarm scheduler** (`AlarmModel`, `AlarmProperties`, `AlarmEffects`, class `Alarm.AlarmTable`).

`Machine` writes the C++ integer types out, `Alignment` the power-of-two helpers, `GuestMemory` what
the two heaps share, `CondVars` the condition variables.

## How it is built

Every part but the arithmetic has the same three layers. A *model* gives the state as a value and
each operation as a function on it, with the branches, constants, conversions and wrap-arounds of
the C++ code. A *class* has the fields of the host record and changes them in place, with the loops
of the C++ code; each of its methods is proved to leave exactly the state, and to return exactly
the answer, that the model's function gives. The *properties* are lemmas about the model that hold
in every state of every run.

The blocking primitives and the scheduler are step systems. One step is what a thread does between
taking the lock and releasing it or falling asleep; the mutex, whose count is changed outside
any other lock, is cut finer still. A run is any sequence of enabled steps, so it stands for any
interleaving of any number of threads. A waiting thread is asleep, or woken and contending, and any wait
may also end without a signal. The classes of these parts have one method for each step, so a blocking
call is the sequence of its methods.

The model keeps some history that the program does not: the requests behind live payloads, the log
of transfers of a queue, the depth each thread believes it has, the arming behind each armed alarm
and what became of it. No operation's outcome depends on it. Where a law counts calls, the counts are taken from
the steps of the run themselves, and the history is proved to agree with them.

## What was found

* **A refused frame heap creation can corrupt a live heap.** `source/memfrmheap.cpp:84-86` stores the
  new bounds before it refuses a region too small for its aligned header. On a live heap with an
  unaligned base this leaves it unsound unless nothing lies beyond the new end
  (`FrmHeapProperties.RefusedCreateKeepsInvExactly`, with an input in
  `FrmHeapProperties.RefusedCreateCorrupts`); a base divisible by 4 is safe
  (`FrmHeapProperties.AlignedRegionIsNeverRefusedLate`).
* **Adjusting a frame heap under recorded states** is sound exactly when no record reaches beyond the
  new end (`FrmHeapProperties.AdjustKeepsInvExactly`). With room left and a record outstanding, a
  later restore puts the tail past the end (`FrmHeapProperties.AdjustedRestoreOverruns`). These two
  operations are the only ones that can break a frame heap (`FrmHeapProperties.StepKeepsInvExactly`).
* **`OSCancelAlarm` returning 1 does not stop a periodic alarm** whose callback is already collected:
  it still fires (`AlarmProperties.PeriodicCanFireAfterCancel`), and fires exactly when a collection was
  waiting (`AlarmProperties.CancelledFiresExactly`, `AlarmProperties.CancelledFiresByThen`). For a one-shot alarm the promise holds.
* **`OSSignalEventAll` on an auto-reset event lets nobody through.** The comment at
  `source/event.cpp:67-68` says all waiters are woken and the event is then reset; they are woken, but
  the flag is cleared before any of them can test it (`EventModel.SignalAllOnAutoLetsNobodyThrough`).
* **The comment at `source/alarm.cpp:128` calls the time absolute**; the code and the comment after it
  treat it as relative, and so does the model.
* **Initialising a queue, event or semaphore wakes nobody.** With threads asleep on it this is sound exactly
  when it makes nothing available that nobody was woken for: `MessageQueueModel.InitKeepsInvExactly`,
  `EventModel.InitKeepsInvExactly`, `SemaphoreModel.InitKeepsInvExactly`. Even the first initialisation of a
  queue strands a sender that came before it (`MessageQueueModel.InitCanStrandSender`); a waiter can be
  stranded the same way (`EventModel.InitCanStrandWaiter`, `SemaphoreModel.InitCanStrandWaiter`).
* **Due time 0 doubles as "no alarm"** in the scan. The sleep it leads to is wrong exactly when nothing is due
  and some armed alarm is due at 0 and none before (`AlarmProperties.ScanSleepsExactly`). It happens on a clock
  before the epoch (`AlarmProperties.AlarmCanBeHidden`) and on no other
  (`AlarmProperties.NonNegativeClockHidesNothing`).
* **Limits that are exact**: the depth of a mutex counts up to 2^32 - 1
  (`RecursiveMutexModel.NestingLimitIsExact`); rounding up an address stays above it as long as the sum
  does not wrap (`Alignment.AlignUpWrapsExactly`); the clock ratio and the timeouts are exact as long as
  one product fits in 64 bits (`Ticks.SystemTimeIsExactRatio`, `Ticks.TimeoutsAgreeExactly`); the product
  in the conversion back to ticks overflows only in the last incomplete second at the negative end
  (`Ticks.TicksRoundTripOverflowsExactly`).

## Model

| member | source | states |
|---|---|---|
| `Alignment.IsPow2Meaning` | source/memexpheap.cpp:50 | the bit test accepts exactly the powers of two |
| `Alignment.AlignedIsDivisible` | source/memexpheap.cpp:51-52 | being aligned, counted by halving, is divisibility by the alignment |
| `Alignment.AlignDownGreatest` | source/memexpheap.cpp:52 | the mask gives the greatest multiple of the alignment not above the address |
| `Alignment.AlignUpLeast` | source/memexpheap.cpp:51 | where the sum does not wrap, the least multiple not below the address |
| `Alignment.AlignUpWrapsExactly` | source/memexpheap.cpp:51 | the result is not below the address if and only if the rounding sum fits in 64 bits |
| `Alignment.NormaliseAlignmentMeaning` | source/memexpheap.cpp:56-61 | a magnitude that is a power of two is kept, everything else means 4, and the result never exceeds 2^30 |
| `GuestMemory.Clear` | source/memexpheap.cpp:203 | the loop zeroes exactly the bytes of the payload in the guest region |
| `ExpBlocks.FitIsExact` | source/memexpheap.cpp:69-78 | the measured room reaches a size if and only if some aligned payload of that size, header before it, lies inside the block, whatever the direction |
| `ExpBlocks.PlaceSucceeds` | source/memexpheap.cpp:150-164 | a block measured large enough can be placed into from either end: both late failure returns are unreachable |
| `ExpBlocks.PlaceTakesOneEnd` | source/memexpheap.cpp:153-164 | the payload is the lowest, from the bottom the highest, of all the aligned places in the block |
| `ExpBlocks.CarveIsSound` | source/memexpheap.cpp:166-196 | carving tiles the same bytes with one used block, and costs the payload, its header, less than the alignment and at most 0x17 bytes more |
| `ExpBlocks.CarveIsExact` | source/memexpheap.cpp:166-196 | a remainder of at least 0x18 bytes stays free as a block of its own, a smaller one goes with the payload; the used block names its direction |
| `ExpBlocks.CoalescedIsSound` | source/memexpheap.cpp:80-89 | merging keeps the tiling, the used blocks and the free total, and leaves no two free neighbours |
| `ExpBlocks.TilesOrdered` | source/memexpheap.cpp:37 | the list is sorted by start and its blocks do not overlap |
| `ExpBlocks.BytesConserved` | source/memexpheap.cpp:225-232 | free and used bytes add up to the whole span |
| `ExpBlocks.ShapeIsUnique` | source/memexpheap.cpp:80-89 | two merged lists over one span with the same used blocks are the same list, but for the direction byte of free blocks |
| `ExpBlocks.Choose` | source/memexpheap.cpp:135-148 | the search finds the lowest block that fits, or one of least slack and the lowest of those, and fails only if none fits |
| `ExpBlocks.FindUsed` | source/memexpheap.cpp:213-214 | the first used block with that payload, or none has it |
| `ExpHeapModel.AllocIsSound` | source/memexpheap.cpp:126-206 | an allocation fails only if no block has room and then changes nothing; otherwise it puts one used block with the requested payload into the chosen block and touches nothing else |
| `ExpHeapModel.FreeIsSound` | source/memexpheap.cpp:208-223 | freeing keeps the list sound, removes exactly that used block and returns exactly its bytes |
| `ExpHeapModel.CreateKeepsInv` | source/memexpheap.cpp:95-115 | creation succeeds if and only if the region is not null and longer than the two headers, and gives a sound heap |
| `ExpHeapModel.RunKeepsInv` | source/memexpheap.cpp:95-260 | every operation, in any order, keeps the heap's invariant, which ties the used blocks to the live requests |
| `ExpHeapProperties.RunIsSound` | source/memexpheap.cpp:80-223 | in every state of every run the blocks are sorted, non-empty, tile the span and never leave free neighbours; the used blocks are exactly the live payloads, which are aligned as requested, inside the heap, and at least a header apart |
| `ExpHeapProperties.AllocSucceedsExactly` | source/memexpheap.cpp:234-250 | a request succeeds if and only if it is not larger than the allocatable-size query for that alignment, in both directions and both modes |
| `ExpHeapProperties.AllocTakesOneEnd` | source/memexpheap.cpp:135-164 | the payload lies in the block the mode promises, at its lowest aligned place, or its highest for a negative alignment |
| `ExpHeapProperties.AllocCostIsExact` | source/memexpheap.cpp:171-200 | an allocation takes all of the chosen block from the free total but for a remainder of at least 0x18 bytes, which becomes one more block; the payload's block names the direction |
| `ExpHeapProperties.CreatedHeap` | source/memexpheap.cpp:95-115 | a heap is created over everything from the first multiple of 4 behind its 0x54-byte header to the end of its region, as one free block, with its flags and in first-free mode; otherwise nothing happens and null is returned |
| `ExpHeapProperties.DeadHeapRefuses` | source/memexpheap.cpp:63-67 | destroying ends a heap and leaves the guest's memory alone; a heap that is not live refuses every call and stays as it is |
| `ExpHeapProperties.NullIsIgnored` | source/memexpheap.cpp:211 | freeing null changes nothing |
| `ExpHeapProperties.ModeIsStored` | source/memexpheap.cpp:252-260 | the low byte of the mode is stored, the previous mode returned and nothing else changed |
| `ExpHeapProperties.ModeTakesEffect` | source/memexpheap.cpp:142-146 | after setting mode 0 an allocation takes the lowest block that fits, after setting mode 1 a tightest one |
| `ExpHeapProperties.AllocAccounting` | source/memexpheap.cpp:174-196 | an allocation lowers the free total by at least size + 0x14 and at most size + 0x14 + (alignment - 1) + 0x17; free and used bytes make up the span |
| `ExpHeapProperties.FreeUndoesAlloc` | source/memexpheap.cpp:208-223 | freeing an allocation straight away restores the block list and the live requests |
| `ExpHeapProperties.FreeRemovesUsed` | source/memexpheap.cpp:208-223 | freeing any pointer, known or not, removes exactly the used block that owns it |
| `ExpHeapProperties.FreesCommute` | source/memexpheap.cpp:208-223 | the order of two frees does not matter |
| `ExpHeapProperties.AllFreedIsFresh` | source/memexpheap.cpp:80-89 | after any run that ends with nothing live, the list is the single free block of the creation and the free total is the original one |
| `ExpHeapProperties.AllocWritesOnlyItsPayload` | source/memexpheap.cpp:202-205 | with the flag an allocation zeroes all of its payload, without it none; no other byte changes, and no live payload overlaps it |
| `ExpHeapProperties.RunPreservesPayload` | source/memexpheap.cpp:126-223 | over any run a live payload that is neither freed nor written by the game keeps every byte |
| `ExpHeapProperties.FlaggedHeapZeroes` | source/memexpheap.cpp:107-204 | a heap created with the zero-allocated flag hands out cleared payloads only, whatever was done to it since |
| `ExpHeap.HostExpHeap.Create` | source/memexpheap.cpp:95-115 | the new state and handle are the model's, and the heap is sound |
| `ExpHeap.HostExpHeap.Destroy` | source/memexpheap.cpp:117-124 | the new state and result are the model's |
| `ExpHeap.HostExpHeap.FindBlock` | source/memexpheap.cpp:135-147 | the search loop with its early exit and slack finds the model's choice |
| `ExpHeap.HostExpHeap.Take` | source/memexpheap.cpp:166-204 | replaces the chosen block by its carving and clears the payload if asked to |
| `ExpHeap.HostExpHeap.Alloc` | source/memexpheap.cpp:126-206 | the new state, guest bytes included, and the pointer are the model's |
| `ExpHeap.HostExpHeap.Coalesce` | source/memexpheap.cpp:80-89 | the in-place loop produces the merged list |
| `ExpHeap.HostExpHeap.Free` | source/memexpheap.cpp:208-223 | the new state is the model's; an unknown pointer is ignored |
| `ExpHeap.HostExpHeap.GetTotalFreeSize` | source/memexpheap.cpp:225-232 | the 32-bit sum is the model's total and complements the used bytes |
| `ExpHeap.HostExpHeap.GetAllocatableSize` | source/memexpheap.cpp:234-250 | the loop finds the largest room of any free block |
| `ExpHeap.HostExpHeap.SetMode` | source/memexpheap.cpp:252-260 | stores the mode's low byte and returns the previous mode |
| `FrmHeapModel.GuardsAreExact` | source/memfrmheap.cpp:115-126 | the guards, wrapped sums included, accept a candidate if and only if an aligned range of that size fits between head and tail |
| `FrmHeapModel.FindState` | source/memfrmheap.cpp:161-170 | a tag selects the latest record that carries it, tag 0 the latest of all |
| `FrmHeapProperties.CreateKeepsInv` | source/memfrmheap.cpp:74-95 | creation keeps the heap sound when it does not refuse late on a live heap |
| `FrmHeapProperties.RefusedCreateKeepsInvExactly` | source/memfrmheap.cpp:84-86 | on any live heap a late refusal keeps it sound if and only if nothing lies beyond the new end |
| `FrmHeapProperties.RefusedCreateCorrupts` | source/memfrmheap.cpp:84-86 | a heap at address 1, created and then refused a creation of 0x4D bytes, ends with its tail beyond its end |
| `FrmHeapProperties.AlignedRegionIsNeverRefusedLate` | source/memfrmheap.cpp:76-86 | a base divisible by 4 is never refused late |
| `FrmHeapProperties.AdjustKeepsInvExactly` | source/memfrmheap.cpp:178-188 | adjusting keeps the heap sound if and only if no recorded state reaches beyond the new end |
| `FrmHeapProperties.AdjustedRestoreOverruns` | source/memfrmheap.cpp:172-186 | record, adjust and restore on a heap with room left puts the tail beyond the end |
| `FrmHeapProperties.StepKeepsInvExactly` | source/memfrmheap.cpp:74-188 | every operation with legal arguments keeps the heap sound, a late refusal and an adjustment exactly under their conditions |
| `FrmHeapProperties.RunKeepsInv` | source/memfrmheap.cpp:74-188 | so does every run whose refusals and adjustments meet their conditions |
| `FrmHeapProperties.RunIsSound` | source/memfrmheap.cpp:106-146 | in every state of every run head and tail stay in order inside the heap, and live allocations are aligned, disjoint and outside the gap |
| `FrmHeapProperties.AllocSucceedsExactly` | source/memfrmheap.cpp:190-201 | an allocation from either end succeeds if and only if it is not larger than the allocatable-size query for that alignment |
| `FrmHeapProperties.AllocTakesOneEnd` | source/memfrmheap.cpp:115-126 | a head allocation takes the lowest aligned place of the gap and the head ends just behind it; a tail allocation takes the highest and becomes the tail |
| `FrmHeapProperties.RefusedAllocIsIgnored` | source/memfrmheap.cpp:118-123 | an allocation that returns null changes nothing |
| `FrmHeapProperties.CreatedHeap` | source/memfrmheap.cpp:74-95 | a heap is created empty over everything from the first multiple of 4 behind its 0x4C-byte header to the end of its region, with its flags |
| `FrmHeapProperties.DeadHeapRefuses` | source/memfrmheap.cpp:64-68 | destroying ends a heap and leaves the guest's memory alone; a heap that is not live refuses every call and stays as it is |
| `FrmHeapProperties.AdjustShrinks` | source/memfrmheap.cpp:178-188 | with nothing at the tail the heap ends at its head, nothing more can be allocated and the remaining size is returned; otherwise 0 is returned and nothing changes |
| `FrmHeapProperties.RecordAndMiss` | source/memfrmheap.cpp:148-170 | recording pushes tag, head and tail and changes nothing else; freeing by a tag nobody recorded returns 0 and changes nothing |
| `FrmHeapProperties.FreeModesAreSides` | source/memfrmheap.cpp:134-146 | mode 1 frees exactly the head side, mode 2 exactly the tail side, mode 3 both with the records, mode 0 nothing |
| `FrmHeapProperties.FreedHeadIsReused` | source/memfrmheap.cpp:121-139 | after a mode 1 free a word-aligned head request succeeds at the start of the data if and only if it ends before the tail, and the tail side stays live |
| `FrmHeapProperties.FreeingAllIsFresh` | source/memfrmheap.cpp:134-146 | after any use, freeing both sides gives back the heap as created; freeing one side after the other does too, but keeps the records |
| `FrmHeapProperties.RestoreUndoesRun` | source/memfrmheap.cpp:148-176 | record, anything that leaves the record on the stack, then free by it: head, tail and the state stack come back, and every allocation live at the record is still live unless a free by mode released it |
| `FrmHeapProperties.NestedRecordIsChosen` | source/memfrmheap.cpp:161-170 | free by state chooses that record exactly when the nesting is complete (tag 0) or no later record carries its tag |
| `FrmHeapProperties.AllocWritesOnlyItsPayload` | source/memfrmheap.cpp:128-130 | with the flag an allocation zeroes all of its bytes, without it none; no other byte changes, and no live allocation overlaps it |
| `FrmHeapProperties.RunPreservesBytes` | source/memfrmheap.cpp:106-188 | over any run an allocation that stays live keeps every byte the game does not write |
| `FrmHeapProperties.RestoreKeepsBytes` | source/memfrmheap.cpp:148-176 | between a record and the restore to it, an allocation live at the record keeps every byte if no free by mode intervenes and the game does not write to it |
| `FrmHeap.HostFrmHeap.Create` | source/memfrmheap.cpp:74-95 | the new state and handle are the model's, late refusals included, and the heap is sound afterwards exactly under the stated condition |
| `FrmHeap.HostFrmHeap.Destroy` | source/memfrmheap.cpp:97-104 | the new state and result are the model's |
| `FrmHeap.HostFrmHeap.Alloc` | source/memfrmheap.cpp:106-132 | the new state, guest bytes included, and the pointer are the model's |
| `FrmHeap.HostFrmHeap.FreeMode` | source/memfrmheap.cpp:134-146 | the new state is the model's |
| `FrmHeap.HostFrmHeap.Record` | source/memfrmheap.cpp:148-154 | pushes head and tail with the tag |
| `FrmHeap.HostFrmHeap.FreeByState` | source/memfrmheap.cpp:156-176 | the backward search and the restore give the model's state and result |
| `FrmHeap.HostFrmHeap.Adjust` | source/memfrmheap.cpp:178-188 | the new state and size are the model's; the heap is sound afterwards if and only if it did not shrink below a record |
| `FrmHeap.HostFrmHeap.GetAllocatableSize` | source/memfrmheap.cpp:190-201 | the model's answer |
| `Calendar.DaysFromCivilCounts` | source/time.cpp:35-43 | for every valid date the closed form is the day count taken year by year and month by month with leap years |
| `Calendar.CivilOfDays` | source/time.cpp:45-59 | converting any valid date to days and back gives the date |
| `Calendar.DaysOfCivil` | source/time.cpp:45-59 | every integer becomes a valid date that converts back to it |
| `Ticks.FieldsOfMeaning` | source/time.cpp:85-114 | for every 64-bit time the fields name its day, second and microsecond, with the right weekday and day of the year |
| `Ticks.TicksRoundTrip` | source/time.cpp:85-133 | ticks to fields and back keeps the second, never moves forward and loses at most 63 ticks |
| `Ticks.TicksRoundTripIsSharp` | source/time.cpp:111-131 | losing nothing and losing 63 both happen in every second |
| `Ticks.TicksRoundTripOverflowsExactly` | source/time.cpp:130 | the product fits in 64 bits for every time but those of the last incomplete second at the negative end |
| `Ticks.FieldsRoundTrip` | source/time.cpp:85-133 | fields to ticks and back is exact from year to second; the microseconds return unchanged if divisible by 32 and one smaller otherwise |
| `Ticks.EpochIsNewYear2000` | source/internal/time_internal.hpp:11-12 | the epoch constant is the naive count of seconds from 1970 to the first of January 2000 |
| `Ticks.TickZero` | source/time.cpp:85-114 | tick 0 reads as the first moment of 2000, a Saturday |
| `Ticks.TicksOfAnyTime` | source/time.cpp:116-133 | hours, minutes, seconds and sub-second counts in any range add to a valid date, the sub-second ticks truncated toward zero |
| `Ticks.SystemTimeIsExactRatio` | source/time.cpp:9-16 | the clock is the exact ratio 3315/1024, rounded down, if and only if the product fits in 64 bits |
| `Ticks.NanosNeverLonger` | source/alarm.cpp:83-84 | the nanoseconds, wrapped or not, never last longer than the ticks |
| `Ticks.TimeoutsAgreeExactly` | source/event.cpp:96-97 | the two-step conversion is the one-step conversion or one less, and the one-step conversion the exact ratio, if and only if the first product does not wrap |
| `Ticks.DeadlineIsNotLate` | source/event.cpp:96-101 | a deadline for any timeout is at most that many ticks after the start on the system clock |
| `CalendarTime.OSTicksToCalendarTime` | source/time.cpp:85-114 | fills every field with the model's value and so names the moment; null is ignored |
| `CalendarTime.CivilFromDaysInto` | source/time.cpp:45-59 | the three outputs are the model's date, exact in the range 64-bit times reach |
| `CalendarTime.OSCalendarTimeToTicks` | source/time.cpp:116-133 | the model's ticks, 0 for null |
| `MessageRing.PutRefinesDeque` | source/messagequeue.cpp:75-82 | a normal send appends, a high-priority send prepends, with no 32-bit overflow and the indices in range |
| `MessageRing.TakeRefinesDeque` | source/messagequeue.cpp:103-105 | a receive removes the front |
| `MessageQueueModel.NextKeepsInv` | source/messagequeue.cpp:40-109 | every step of every thread keeps the queue's invariant |
| `MessageQueueModel.InitKeepsInvExactly` | source/messagequeue.cpp:46-49 | initialising again keeps the invariant if and only if no sender sleeps or enough are already woken to fill the new ring |
| `MessageQueueModel.InitCanStrandSender` | source/messagequeue.cpp:40-51 | a run in which the first initialisation leaves a sender asleep on a queue with room |
| `MessageQueueModel.NobodySleepsForGood` | source/messagequeue.cpp:60-109 | in every interleaving, while a receiver sleeps there are at most as many messages as woken receivers, and likewise for senders and free slots; so with no thread woken, receivers sleep only on an empty queue and senders only on a full one |
| `MessageQueueProperties.BlockedSendSendsItsMessage` | source/messagequeue.cpp:60-86 | over every run a send that blocks sends, once it completes, the message and priority it was called with, and waits until then |
| `MessageQueueProperties.BlockedReceiveTakesFront` | source/messagequeue.cpp:88-109 | over every run a receive that blocks takes, once it completes, the message then at the front, and waits until then |
| `MessageQueueProperties.WhoASendMoves` | source/messagequeue.cpp:67-85 | a send with room transfers its message and rouses at most the receiver picked; without room it rouses nobody and sleeps exactly if it may block |
| `MessageQueueProperties.WhoAReceiveMoves` | source/messagequeue.cpp:95-108 | a receive with a message takes the front and rouses at most the sender picked; without one it rouses nobody and sleeps exactly if it may block |
| `MessageQueueProperties.WhoAResumedSendMoves` | source/messagequeue.cpp:67-85 | a woken sender leaves if there is room and sleeps again otherwise |
| `MessageQueueProperties.WhoAResumedReceiveMoves` | source/messagequeue.cpp:95-108 | a woken receiver leaves with the front if there is one and sleeps again otherwise |
| `MessageQueueProperties.WakeRousesItsThread` | source/messagequeue.cpp:72 | a wait that ends without a signal rouses its own thread only |
| `MessageQueueProperties.InitEmpties` | source/messagequeue.cpp:43-50 | a positive size gives an empty queue of that capacity and moves nobody, any other changes nothing |
| `MessageQueueModel.ResumingEnds` | source/messagequeue.cpp:67-73 | letting woken threads run, in any order, takes at most as many steps as the threads waiting, with the woken ones counted twice |
| `MessageQueueModel.StuckIsAtRest` | source/messagequeue.cpp:67-109 | when no woken thread can run, none is woken, receivers sleep only on an empty queue and senders only on a full one |
| `MessageQueueModel.RestIsReached` | source/messagequeue.cpp:67-109 | from every sound state letting woken threads run leads there |
| `MessageQueueModel.RunRefinesDeque` | source/messagequeue.cpp:40-121 | over all runs the ring holds what a bounded double-ended queue holds after the same transfers; nothing is lost or invented, and without high-priority sends the order is first in, first out |
| `MessageQueueModel.NothingLost` | source/messagequeue.cpp:60-109 | the messages sent are those received and those still queued |
| `MessageQueueModel.FirstInFirstOut` | source/messagequeue.cpp:79-81 | without high-priority sends messages are received in the order they were sent |
| `MessageQueue.HostQueue.Init` | source/messagequeue.cpp:40-51 | the model's initialisation, with or without sleepers; a size of 0 or less changes nothing; sound afterwards if and only if it leaves no unannounced room |
| `MessageQueue.HostQueue.SendPass` | source/messagequeue.cpp:67-85 | one pass of the sending loop: sent, asleep with its own message to send, or refused, as the model says |
| `MessageQueue.HostQueue.ReceivePass` | source/messagequeue.cpp:95-108 | one pass of the receiving loop, as the model says, with the front as the message |
| `MessageQueue.HostQueue.Send` | source/messagequeue.cpp:60-86 | the model's step: with room the message joins at its end of the queue and the answer is 1; on a full queue the call sleeps or answers 0 and the queue stays |
| `MessageQueue.HostQueue.ResumeSend` | source/messagequeue.cpp:67-86 | the model's step for a sender that was woken: with room its message joins and the answer is 1, otherwise it sleeps again |
| `MessageQueue.HostQueue.Receive` | source/messagequeue.cpp:88-109 | the model's step: the front is returned and the rest stays; on an empty queue the call sleeps or answers 0 |
| `MessageQueue.HostQueue.ResumeReceive` | source/messagequeue.cpp:95-109 | the model's step for a receiver that was woken: it gets the front or sleeps again |
| `MessageQueue.HostQueue.Peek` | source/messagequeue.cpp:112-121 | tells whether there is a message and returns the front without taking it |
| `RecursiveMutexModel.NextKeepsInv` | source/mutex.cpp:28-62 | every step of every thread keeps the mutex's invariant |
| `RecursiveMutexModel.MutualExclusion` | source/internal/mutex_internal.hpp:11-19 | in every interleaving at most one thread is inside, it owns the lock, and the count is its lock calls minus its unlock calls; the lock is free only with count 0 |
| `RecursiveMutexProperties.CountIsBalance` | source/mutex.cpp:28-62 | in every run a thread in game code holds the mutex exactly while its completed lock calls outnumber its unlock calls, counted over the steps; the count is the difference, and no two threads do |
| `RecursiveMutexProperties.OwnPlace` | source/mutex.cpp:28-62 | where each piece of a call takes its own thread, and what it does to the lock |
| `RecursiveMutexProperties.OthersStay` | source/mutex.cpp:28-62 | no piece of a call moves another thread, but for a signal |
| `RecursiveMutexModel.ForeignUnlockIsIgnored` | source/mutex.cpp:42-44 | an unlock by a thread without the mutex changes nothing |
| `RecursiveMutexModel.WaitReturnsAtEntryDepth` | source/cond.cpp:31-42 | OSWaitCond returns with the lock held at exactly its entry depth, whatever other threads did |
| `RecursiveMutexProperties.SignalMovesSleepers` | source/cond.cpp:44-49 | a signal wakes exactly the threads asleep on its condition, each with the count it saved, and touches neither anybody else nor the mutex |
| `RecursiveMutexProperties.SignalWakesWaiter` | source/cond.cpp:31-49 | over every run a thread that waits on a condition and sleeps is woken by the next signal of that condition and of no other |
| `RecursiveMutexModel.WaitersHoldNothing` | source/cond.cpp:38-40 | a thread that sleeps or contends does not hold the lock |
| `RecursiveMutexModel.NestingLimitIsExact` | source/mutex.cpp:31-33 | locking once more keeps the count right if and only if it has not reached 2^32 - 1 |
| `RecursiveMutex.HostMutex.BeginLock` | source/mutex.cpp:31-34 | the model's step: the owner goes one deeper and is done, any other thread goes on to wait |
| `RecursiveMutex.HostMutex.Acquire` | source/mutex.cpp:35 | the model's step, with the lock free |
| `RecursiveMutex.HostMutex.StoreOne` | source/mutex.cpp:36 | the model's step |
| `RecursiveMutex.HostMutex.BeginTryLock` | source/mutex.cpp:53-57 | the model's step, telling whether it succeeded and whether the lock was just taken |
| `RecursiveMutex.HostMutex.BeginUnlock` | source/mutex.cpp:42-45 | the model's step, telling whether the lock has to be released |
| `RecursiveMutex.HostMutex.Release` | source/mutex.cpp:46 | the model's step |
| `RecursiveMutex.HostMutex.Park` | source/cond.cpp:38-39 | the model's step, saving the thread's depth |
| `RecursiveMutex.HostMutex.Sleep` | source/cond.cpp:40 | the model's step: the lock is free although the thread has nested |
| `RecursiveMutex.HostMutex.Reacquire` | source/cond.cpp:40 | the model's step, with the lock free |
| `RecursiveMutex.HostMutex.Restore` | source/cond.cpp:41 | the model's step: the thread holds the lock and the count is its depth again |
| `RecursiveMutex.HostMutex.Signal` | source/cond.cpp:44-49 | the model's step: all who sleep on the condition contend, the mutex stays |
| `RecursiveMutex.HostMutex.Lock` | source/mutex.cpp:28-37 | the whole call when no other thread holds the lock: one level deeper, inside, count equal to depth |
| `RecursiveMutex.HostMutex.TryLock` | source/mutex.cpp:50-62 | the whole call: succeeds if and only if the lock is free or already this thread's, and then goes one level deeper; failure changes nothing |
| `RecursiveMutex.HostMutex.Unlock` | source/mutex.cpp:39-48 | the whole call: gives back one level, the last one frees the lock, a foreign unlock changes nothing |
| `EventModel.RunIsSound` | source/event.cpp:47-110 | in every interleaving the waits an auto-reset event lets through never exceed its initial state plus the signals, and a signalled one with sleepers has a woken waiter; nobody sleeps on a signalled manual event |
| `EventProperties.WaitsNeedSignals` | source/event.cpp:47-110 | over every run the successful waits on an auto-reset event, counted over the steps since its initialisation, never exceed its signals and the initial one |
| `EventProperties.FlagAfter` | source/event.cpp:30-90 | what each call makes of the flag and the mode |
| `EventProperties.WaitMovesOnlyItsThread` | source/event.cpp:78-109 | an unsuccessful wait sleeps, unless it is timed and its time is over, and moves no other thread |
| `EventProperties.TimedIsRemembered` | source/event.cpp:78-105 | a sleeping thread gives up later if and only if its call was the timed one |
| `EventProperties.WhoIsRoused` | source/event.cpp:47-71 | a signal rouses the one sleeper picked on an auto-reset event and all of them on a manual one, OSSignalEventAll all of them, a reset nobody |
| `EventModel.InitKeepsInvExactly` | source/event.cpp:34-37 | initialising again keeps the invariant if and only if it leaves nobody asleep on a signalled event without a woken waiter |
| `EventModel.InitCanStrandWaiter` | source/event.cpp:34-37 | a run after which initialising to signalled leaves a waiter asleep |
| `EventModel.ResumedWaiters` | source/event.cpp:78-80 | of the woken waiters, running in any order, a signalled auto-reset event lets exactly the first through and clears itself, a signalled manual event all of them |
| `EventModel.RestIsReached` | source/event.cpp:78-80 | once each woken waiter has run, nobody sleeps on a signalled event |
| `EventModel.SignalAllOnAutoLetsNobodyThrough` | source/event.cpp:60-71 | after OSSignalEventAll on an auto-reset event no wait succeeds before the next signal |
| `Event.HostEvent.Init` | source/event.cpp:30-38 | the model's initialisation, with or without sleepers; sound afterwards if and only if nobody is left asleep on what it signals |
| `Event.HostEvent.Signal` | source/event.cpp:47-58 | the model's step: one waiter is woken on auto-reset, all on manual |
| `Event.HostEvent.SignalAll` | source/event.cpp:60-71 | the model's step |
| `Event.HostEvent.Reset` | source/event.cpp:83-90 | the model's step |
| `Event.HostEvent.Pass` | source/event.cpp:78-80 | one pass of the untimed waiting loop is the model's |
| `Event.HostEvent.PassTimed` | source/event.cpp:100-109 | one pass of the timed waiting loop is the model's |
| `Event.HostEvent.Wait` | source/event.cpp:73-81 | the model's step; passes at once if and only if signalled |
| `Event.HostEvent.ResumeWait` | source/event.cpp:78-80 | the model's step for a waiter that was woken |
| `Event.HostEvent.WaitTimed` | source/event.cpp:92-110 | computes the 64-bit deadline and takes the model's first pass: success, timeout or sleep |
| `Event.HostEvent.ResumeTimed` | source/event.cpp:100-109 | the model's next pass: a signal wins over an expired deadline |
| `SemaphoreModel.RunIsSound` | source/semaphore.cpp:52-85 | in every interleaving the count is the logged initial value plus signals minus successful waits, waits never take it below 0, and nobody sleeps while it is positive |
| `SemaphoreProperties.CountIsConserved` | source/semaphore.cpp:26-85 | over every run the count is the initial value plus the OSSignalSemaphore calls minus the successful waits, counted over the steps since the initialisation |
| `SemaphoreProperties.WaitMovesOnlyItsThread` | source/semaphore.cpp:63-72 | a wait sleeps if and only if it does not succeed, and moves no other thread |
| `SemaphoreProperties.TryWaitNeverWaits` | source/semaphore.cpp:76-85 | an attempt moves no thread |
| `SemaphoreProperties.WhoIsRoused` | source/semaphore.cpp:52-61 | a signal rouses every sleeper, whatever the count; initialising rouses nobody |
| `SemaphoreModel.InitKeepsInvExactly` | source/semaphore.cpp:30-32 | initialising again keeps the invariant if and only if the count is not positive or nobody sleeps |
| `SemaphoreModel.InitCanStrandWaiter` | source/semaphore.cpp:30-32 | a run after which initialising to 1 leaves a waiter asleep |
| `SemaphoreModel.ResumedWaiters` | source/semaphore.cpp:68-69 | of the woken waiters, running in any order, exactly as many succeed as the count allows |
| `SemaphoreModel.RestIsReached` | source/semaphore.cpp:68-69 | once each woken waiter has run, nobody sleeps while the count is positive |
| `Semaphore.HostSemaphore.Init` | source/semaphore.cpp:26-33 | the model's initialisation, with or without sleepers; sound afterwards if and only if nobody sleeps on a positive count |
| `Semaphore.HostSemaphore.GetCount` | source/semaphore.cpp:41-49 | reads the conserved count without changing it |
| `Semaphore.HostSemaphore.Signal` | source/semaphore.cpp:52-61 | the model's step: one more than before, returning the count before it |
| `Semaphore.HostSemaphore.Pass` | source/semaphore.cpp:68-71 | one pass of the waiting loop is the model's and returns the count before it |
| `Semaphore.HostSemaphore.Wait` | source/semaphore.cpp:63-72 | the model's step: succeeds at once if and only if the count is positive, returning the count before it |
| `Semaphore.HostSemaphore.ResumeWait` | source/semaphore.cpp:67-69 | the model's step for a waiter that was woken, with the same answers |
| `Semaphore.HostSemaphore.TryWait` | source/semaphore.cpp:76-85 | the model's step: returns the count before it and succeeds if and only if that is positive |
| `AlarmModel.DueInMeaning` | source/alarm.cpp:58-66 | the scan collects exactly the due alarms, each once |
| `AlarmModel.NextKeepsInv` | source/alarm.cpp:48-191 | every step of the scheduler and of its clients keeps the invariant that ties alarms, armings, fates and collections together |
| `AlarmModel.RunKeepsInv` | source/alarm.cpp:48-191 | so does every run, on a clock that starts at any time and does not run backwards |
| `AlarmProperties.NearestIsExact` | source/alarm.cpp:67 | the scan's nearest time is 0 exactly when none is armed and is not above any armed due time, if and only if it is not so that some armed alarm is due at 0 and none before |
| `AlarmProperties.NearestIsMinimum` | source/alarm.cpp:67 | in all those tables it is the least due time of the armed alarms |
| `AlarmProperties.SleepIsExact` | source/alarm.cpp:79-87 | with nothing due, the sleep chosen is sound if and only if the table is not of the failing kind |
| `AlarmProperties.ScanSleepsExactly` | source/alarm.cpp:51-88 | a turn of the scheduler leaves it soundly asleep, or awake, if and only if its scan does not take an alarm due at 0 for none |
| `AlarmProperties.NonNegativeClockHidesNothing` | source/alarm.cpp:51-67 | with nothing due at a clock of 0 or more, the table is never of the failing kind |
| `AlarmProperties.SleepIsSoundAfterScan` | source/alarm.cpp:79-87 | in every run on any clock a sleep is sound unless the latest scan hid an alarm |
| `AlarmProperties.SleepIsSound` | source/alarm.cpp:79-87 | on a clock that starts at 0 or later: asleep untimed means no alarm is armed; asleep with a timeout means none is due before the time aimed at, and the timeout, even from a wrapped product, ends no later |
| `AlarmProperties.AlarmCanBeHidden` | source/alarm.cpp:56-80 | a run that starts at clock -5 and ends asleep untimed with an alarm armed |
| `AlarmProperties.RunGrows` | source/alarm.cpp:48-173 | the fate of an arming is final, and nothing settled is collected again |
| `AlarmProperties.CollectionsAreSound` | source/alarm.cpp:58-66 | what is collected is the alarm and callback that were armed, never before set time plus delta; a one-shot arming at most once and only if neither cancelled nor replaced; a periodic one at least one interval apart |
| `AlarmProperties.CollectedWasCollected` | source/alarm.cpp:61-66 | an arming whose fate is collection has a collection |
| `AlarmProperties.DeliveredExactlyOnce` | source/alarm.cpp:70-77 | every collection gets its callback in exactly one step |
| `AlarmProperties.OneShotFiresAtMostOnce` | source/alarm.cpp:61-75 | a one-shot arming fires at most once and never before it is due |
| `AlarmProperties.CancelSettles` | source/alarm.cpp:153-164 | a cancel that returns 1 cancels the arming in force |
| `AlarmProperties.CancelGroupSettles` | source/alarm.cpp:166-173 | cancelling a group cancels the armings of exactly its armed alarms |
| `AlarmProperties.SettledOneShotNeverFires` | source/alarm.cpp:122-173 | a one-shot arming that was cancelled, alone or with its group, or replaced never fires |
| `AlarmProperties.CancelledOneShotNeverFires` | source/alarm.cpp:153-164 | OSCancelAlarm returning 1 means a one-shot arming never fires |
| `AlarmProperties.CancelledFiresExactly` | source/alarm.cpp:70-77 | after a cancel that returned 1 any arming fires if and only if one of its collections was waiting and is delivered |
| `AlarmProperties.CancelledFiresByThen` | source/alarm.cpp:70-77 | if the run ends with nothing left to deliver, the collections waiting at the cancel decide alone |
| `AlarmProperties.PeriodicCanFireAfterCancel` | source/alarm.cpp:61-75 | a run in which a periodic arming fires after its cancel returned 1 |
| `AlarmEffects.SetArmsOnce` | source/alarm.cpp:122-137 | OSSetAlarm makes one arming without interval and leaves exactly that alarm armed with its terms, keeping group and user data, and the scheduler awake |
| `AlarmEffects.SetPeriodicArms` | source/alarm.cpp:139-151 | OSSetPeriodicAlarm does the same with its own start and interval |
| `AlarmEffects.SetFiresAtMostOnce` | source/alarm.cpp:122-137 | in every run a call of OSSetAlarm runs its callback for its alarm at most once, and not before the call plus the time it was given |
| `AlarmEffects.SetPeriodicFiresSpaced` | source/alarm.cpp:139-151 | in every run a call of OSSetPeriodicAlarm runs its callback for collections at least its interval apart, the first not before its start; with no positive interval it fires at most once |
| `AlarmEffects.CancelDisarmsOne` | source/alarm.cpp:153-164 | a cancel disarms its alarm alone, wakes the scheduler and settles no arming of another alarm |
| `AlarmEffects.CancelGroupDisarms` | source/alarm.cpp:166-173 | a group cancel disarms exactly the alarms of the group |
| `AlarmEffects.CancelAnswersWhetherInForce` | source/alarm.cpp:159-163 | OSCancelAlarm returns 1 if and only if an arming of that alarm is in force |
| `AlarmEffects.RecordsAreEdited` | source/alarm.cpp:107-191 | creating blanks one record, setting a tag or user data changes one field, and nothing else moves |
| `AlarmEffects.TurnMovesDue` | source/alarm.cpp:58-66 | a turn leaves alarms that are not due alone, disarms due ones, and arms repeating ones one interval after the clock |
| `AlarmEffects.DueIsCollected` | source/alarm.cpp:61-70 | every alarm armed and due at a turn is collected in it, for its callback and the arming in force |
| `AlarmEffects.SleepAimsAtNearest` | source/alarm.cpp:79-87 | with nothing due or hidden the scheduler sleeps untimed exactly if nothing is armed, and otherwise until the least due time, in nanoseconds rounded down exactly when the product fits |
| `AlarmEffects.OneThingAtATime` | source/alarm.cpp:73-87 | time, a wake and a delivery each change one thing |
| `Alarm.AlarmTable.Create` | source/alarm.cpp:107-114 | the model's step |
| `Alarm.AlarmTable.Arm` | source/alarm.cpp:127-133 | arms the record, blank if new, keeping its group and user data, and wakes the scheduler |
| `Alarm.AlarmTable.Set` | source/alarm.cpp:122-137 | the model's step: armed once, due after the given time |
| `Alarm.AlarmTable.SetPeriodic` | source/alarm.cpp:139-151 | the model's step: armed with an interval |
| `Alarm.AlarmTable.Cancel` | source/alarm.cpp:153-164 | the model's step, returning whether the alarm was armed |
| `Alarm.AlarmTable.CancelGroup` | source/alarm.cpp:166-173 | the loop over the table takes the model's step |
| `Alarm.AlarmTable.DisarmGroup` | source/alarm.cpp:170 | the loop disarms exactly the alarms of the group |
| `Alarm.AlarmTable.SetTag` | source/alarm.cpp:175-182 | the model's step |
| `Alarm.AlarmTable.SetUserData` | source/alarm.cpp:184-191 | the model's step |
| `Alarm.AlarmTable.Visit` | source/alarm.cpp:59-67 | the loop body collects, moves or disarms one alarm and updates the nearest time |
| `Alarm.AlarmTable.Scan` | source/alarm.cpp:58-68 | the loop, in whatever order it visits the table, collects the model's due alarms with their callbacks, updates the table and finds the nearest time |
| `Alarm.AlarmTable.Turn` | source/alarm.cpp:51-88 | one turn of the scheduler is the model's step: it hands out the due list, which names the collections still to be delivered, or falls asleep |
| `Alarm.AlarmTable.Deliver` | source/alarm.cpp:73-76 | one round of the delivery loop is the model's step: the next callback of the list in order, null ones passed over, then back to the scan |
| `Alarm.AlarmTable.Wake` | source/alarm.cpp:80-87 | the model's step at the end of a sleep |

## Left out

- libnx itself: locks are mutually exclusive, `condvarWait` releases and sleeps atomically, wake-one wakes one sleeper if there is one, clocks do not run backwards.
- Null handles and the handle table: each class is the record a handle leads to.
- Waiting loops of the blocking calls: each pass of a loop, from a held lock to its release or to sleep, is one method and one step; whether the system ever schedules a woken thread is not modelled.
- RecursiveMutex.HostMutex.Lock: the whole call is stated for a lock that no other thread holds; a contended call is its pieces, with steps of other threads in between.
- RecursiveMutex.HostMutex.BeginLock: requires a depth below 2^32 - 1; `RecursiveMutexModel.NestingLimitIsExact` says why.
- RecursiveMutex.HostMutex.Park: `OSWaitCond` is modelled only for the thread that holds the mutex; another caller would zero the holder's count and hand libnx a lock it does not own.
- Semaphore.HostSemaphore.Signal: requires a count below the int32_t maximum; beyond it the C++ behaviour is undefined.
- ExpHeapModel.CreateKeepsInv: requires, as all heap lemmas do, that the region ends 2^30 + 0x14 bytes below the top of the 64-bit address space, so that rounding up cannot wrap.
- FrmHeapProperties.CreateKeepsInv: requires, as all frame heap lemmas do, that the region ends 2^30 + 2^32 bytes below the top of the address space.
- Alignment.NormaliseAlignmentMeaning: leaves out the alignment INT_MIN, which C++ cannot negate.
- FrmHeapProperties.RunIsSound: its runs contain a late refusal on a live heap and an adjustment only where they are sound, which `FrmHeapProperties.StepKeepsInvExactly` makes exact.
- CalendarTime.OSCalendarTimeToTicks: computes in unbounded integers; fields so large that a product leaves int32_t or int64_t are not modelled, but for the one product covered by `Ticks.TicksRoundTripOverflowsExactly`.
- Alarm.AlarmTable.Set: requires that the due time fits in 64 bits.
- Alarm.AlarmTable.Turn: requires that the next due time of each periodic alarm that is due fits in 64 bits; the difference between the nearest due time and the clock is computed in unbounded integers.
- The callbacks' own code: a delivery is a step, and what a callback does is steps of a client; a null callback counts as delivered.
- Alarm numbers stand for the addresses of alarms; the scheduler visits the table in any order instead of address order.
- `MEMGetAllocModeForExpHeap` and `OSGetAlarmUserData`: plain reads of a field.
- Starting and stopping the scheduler thread (`ensureThread`, `coreinitNxAlarmShutdown`) and the polling `OSWaitAlarm`, which would add only easy members.
- `__OSSetAbsoluteSystemTime`, `computeBaseTime` and `OSSleepTicks`: jumps of the clock and calls into the system.
- The base heaps and `MEMFindContainHeap`: they wrap the expanded heap.
- The spinlock itself: only its timeout conversion is compared with the event's.
- Message contents are four words; the guest's buffer and byte order are not touched, as in the C++ code.
- File system, debug output, dynamic loading, the handle table, thread bookkeeping, atomics, cache operations and the Python tools: host input and output, one-line wrappers or small tables.
