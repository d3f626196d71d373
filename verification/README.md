# Teensy 4 core: timers, events, audio blocks, serial ports and strings

Five stateful parts of the Teensy 4 core library, modelled in Dafny and proved correct over whole runs. Each part has
the same shape: a value-level description of what the part is for, lemmas about every run of that description, and
classes that update fields, links and arrays in place the way the library does, each method of which is proved to
carry out one step of the description.

- **Timers** (`TimerSchedule`, `TimerRuns`, `MillisTimers`). `MillisTimer` keeps running timers in a doubly linked list
  in which each timer's wait is counted from the timer before it, and freshly begun timers in a second list that the next
  tick picks up. `TimerSchedule` keeps absolute deadlines instead. `MillisTimers` proves that the linked form refines it;
  `TimerRuns` proves on which ticks a timer fires in every run, whatever happens to the other timers.
- **Event responders** (`EventQueues`, `EventResponders`). Triggered responders wait in two doubly linked queues;
  repeated triggers coalesce. Each queue keeps a history of the triggers it accepted and of those withdrawn again by
  clear or detach; what was called, is being called and is queued is that history without the withdrawn ones, in order.
- **Audio blocks** (`BitWords`, `BlockOwnership`, `AudioStreams`). A bitmap with a first-word hint hands out blocks; 8-bit
  counters say how many input-queue slots and callers own each block.
- **Serial ports** (`Uarts`, `SplitRings`, `SerialTransmit`, `SerialReceive`, `HardwareSerials`, `SerialRuns`). Two rings,
  each split over two arrays, between the program, the interrupt handler and the UART. The protocols are state machines
  whose steps interleave freely; a call of write9bit, read or peek is several steps. `SerialRuns` proves of whole runs of
  the port what leaves on the line and what read returns.
- **Strings** (`TextReplace`, `CStrings`, `WStrings`). In-place replace by something equally long, shorter or longer,
  search from the end, append (also of a part of the string itself), reserve, remove and trim, on a NUL-terminated buffer.

`Histories` holds what the event queues and the serial receiver share: sequences some of whose elements were withdrawn.
`Options` is the type of a value or its absence.

## How the environment enters

A region with interrupts off, and a run of an interrupt handler, is one step. In particular the UART does not shift while
the serial handler runs: in the code, a handler that is held up after it has filled the FIFO, with both the transmit and
the completion interrupt enabled, could see the transmission complete and lower the flag with words still in the ring
(teensy4/HardwareSerial.cpp:612-645).

Memory allocation succeeds or fails as a parameter `granted` says; no block of memory has 2^31 bytes or more, and realloc
to no bytes frees the block. The UART has FIFOs of four words with both watermarks at two, which is what `begin` computes
for a four-word FIFO (teensy4/HardwareSerial.cpp:165-175); "transmission complete" means an empty FIFO and an idle line,
and implies "data register empty". A copy to a lower, overlapping address runs upwards. `uint32` and `uint8` are ranges
that every stored timer wait and every reference count is proved to stay in. What can wrap around is written modulo its
width: the reference count in `transmit`, the sizes and places of strings, and the words in a ring.

## What the code does not always do

Where a property fails, the code is modelled as it is and the exact condition is proved. An input on which it fails is
given as well, by a lemma or method of its own, except where the condition names every such input outright.

- `clearEvent`, `detach` and `attach` of a responder that a dispatch has just taken off its queue, while its flag is still
  up, unlink it a second time by its stale link. That keeps the queues exact if and only if the responder it names is still
  the first (`LinksHold`; `ClearKeepsInv`, `DetachKeepsInv`, `AttachKeepsInv`). `ClearCanLose`: r is taken off, x is
  triggered, r is cleared, and x is off the list with its flag up. The cleared function is called all the same:
  `ClearedIsCalled`.
- A trigger of such a responder after a clear queues it again, and the call then lowers the flag of a queued responder
  (`RetriggerIsLowered`). A call leaves the queues exact if and only if the responder is on neither (`CallKeepsExact`), and
  a trigger upsets that if and only if it does this (`TriggerKeepsInv`).
- `detach` leaves the triggered flag up (`DetachLeavesFlag`), so that a later attach to a queue upsets it: `AttachKeepsInv`.
  It also leaves an immediate responder attached: `DetachSilences`.
- `transmit` wraps the 8-bit reference count (`TransmitCanWrap`) if and only if a block ends up with 256 owners:
  `TransmitKeepsInv`. `release` by anyone but a caller who holds the block (`ReleaseTwice`) keeps the counts right if and
  only if the block is free with a count above 1: `ReleaseKeepsInv`.
- `initialize_memory` a second time makes blocks free that are still queued or held, and does not reset the count of used
  blocks (`InitializeTwice`): it keeps the pool sound if and only if that count is zero, which it is exactly when nothing
  is queued or held: `InitializeKeepsInv`, `UsedCountsOwned`.
- A ring element of 8 bits cuts a 9-bit word (`WideWordIsCut`): for given arriving words, the driver returns them exactly
  in every interleaving if and only if all of them fit: `ExactIfAllFit`.
- Memory added to a ring a second time is counted twice (`AddTwice`), more than 65536 slots are more than the 16-bit head
  can name (`HeadWraps`), memory added at any time lets words that nobody wrote into the queue if and only if the queued
  ones wrap around the old end (`AddToWrapped`), and a write under way may have taken slot 0 (`AddWhileWriting`). The exact
  conditions are in `AddMemory`, `AddMemoryForRead` and `AddMemoryForWrite`.
- A growing replace counts the size from the left and works from the right. It may match text it has just written, so
  that the result differs (`GrowingCanDiffer`), and it may need more room than it counted (`GrowingCanOverrun`: "aa" to
  "aaa" in "aaa" counts four characters and writes five). `OrdersAgreeExactly` and `SizeSufficesExactly` give the
  conditions on the two strings.
- It counts the size in 32 bits. 65536 times "a" and a replacement of 65538 characters make it count 131072 and write
  behind the buffer (`SizeCanWrap`); with 65537 characters the size is the old length, and nothing is replaced
  (`WrapCanHideMatches`). When no match can reach into a replacement, the replace is sound if and only if the length of
  the result is less than 2^32 - 1 or it gives up: `SoundExactly`.
- A buffer for 2^32 - 1 characters is a block of no bytes, for which the old buffer is freed: `ChangeBuffer`, `Reserve`.
- `remove` computes the wrong length (`RemoveCanLengthen`) if and only if the end of the range exceeds 32 bits
  (`RemoveLength`), and may then write behind the buffer (`RemoveBehind`); `Remove` says exactly when.
- `lastIndexOf` for the NUL character finds the place where it cut the text: `LastIndexOfChar`.

## Model

| member | source | states |
|---|---|---|
| `TimerRuns.FiringTimes` | teensy4/EventResponder.cpp:192-326 | In every run that leaves the timer alone, a timer begun with ms >= 1 fires on tick max(ms, 2) and, if repeating, exactly every ms ticks after that; a one-shot timer never again; ms = 0 never |
| `TimerRuns.FiringTimesFrom` | teensy4/EventResponder.cpp:222-326 | The same from any state of the timer (off, waiting or running with any remaining wait): which later ticks it fires on depends on that state alone, whatever other timers are begun, ended or fired |
| `TimerRuns.EndedIsSilent` | teensy4/EventResponder.cpp:263-294 | After end, a timer does not fire in any run until it is begun again |
| `TimerRuns.TickTracks` | teensy4/EventResponder.cpp:296-326 | One tick changes each timer as its own state says, fires it exactly when it was running with nothing left to wait, and fires no timer twice |
| `TimerRuns.FiredOnce` | teensy4/EventResponder.cpp:296-316 | The timers fired by a tick are distinct, and each was at the due end of the running list |
| `TimerRuns.StatusAfterTick` | teensy4/EventResponder.cpp:296-326 | After a tick a running timer has one tick less to wait, a fired repeating one its period less one, a fired one-shot is off, and a waiting one is running with its whole wait |
| `TimerRuns.OthersTrack` | teensy4/EventResponder.cpp:192-294 | Beginning or ending one timer leaves the wait and period of every other timer as they were |
| `TimerRuns.BeginTracks` | teensy4/EventResponder.cpp:192-220 | Whatever the timer was doing, after begin it waits with two ticks taken off its time, or is off if the time was 0 |
| `TimerRuns.StepKeepsWellFormed` | teensy4/EventResponder.cpp:192-326 | Every operation keeps the running list sorted by deadline, and every timer on at most one list, once |
| `TimerRuns.EndKeepsWellFormed` | teensy4/EventResponder.cpp:263-294 | Ending keeps the lists in order and leaves the timer on neither |
| `TimerRuns.TickKeepsWellFormed` | teensy4/EventResponder.cpp:296-326 | A tick keeps the running list sorted and free of duplicates although repeating and waiting timers are merged into it |
| `TimerRuns.RunningMembers` | teensy4/EventResponder.cpp:296-316 | What runs on after the firing loop is exactly what was not yet due, plus each fired repeating timer with its whole period |
| `TimerSchedule.InsertAllMembers` | teensy4/EventResponder.cpp:317-325 | Merging timers into the running list adds exactly those timers |
| `TimerSchedule.InsertUnique` | teensy4/EventResponder.cpp:222-261 | Insertion adds one timer and duplicates none |
| `TimerSchedule.InsertAllKeeps` | teensy4/EventResponder.cpp:317-325 | Merging distinct timers into a sorted list keeps it sorted and free of duplicates, with the members of both |
| `TimerSchedule.InsertBehind` | teensy4/EventResponder.cpp:238-259 | Insertion goes past every timer that is due no later |
| `TimerSchedule.InsertPosIs` | teensy4/EventResponder.cpp:238-259 | In a sorted list, the place is settled by its two neighbours: behind one due no later, before one due later |
| `TimerSchedule.WithoutAt` | teensy4/EventResponder.cpp:263-277 | Removing a listed timer cuts out its own entry and no other |
| `TimerSchedule.ReloadsMembers` | teensy4/EventResponder.cpp:310-313 | The timers put back are exactly the fired ones with a period, each due after that period |
| `MillisTimers.TimerLists.ValidIsWellFormed` | teensy4/EventResponder.cpp:222-294 | Well-linked lists that agree with the timers' states represent a well-formed schedule, so what is proved of every run of schedules holds of the linked lists |
| `MillisTimers.TimerLists.LinkedIsSorted` | teensy4/EventResponder.cpp:222-261 | Non-negative waits counted from the timer before make the deadlines sorted |
| `MillisTimers.TimerLists.Spliced` | teensy4/EventResponder.cpp:229-258 | Splicing a timer in at its place and taking its wait off the next timer's leaves every other deadline as it was and the links consistent in both directions |
| `MillisTimers.TimerLists.CutOut` | teensy4/EventResponder.cpp:267-277 | Cutting a timer out and adding its wait to the next one's leaves every other deadline as it was and the links consistent |
| `MillisTimers.TimerLists.AddToActiveList` | teensy4/EventResponder.cpp:222-261 | Refines insertion by absolute deadline, behind equal deadlines, without any subtraction going below zero, and leaves list membership and state in agreement |
| `MillisTimers.TimerLists.AddInFront` | teensy4/EventResponder.cpp:224-236 | The branch for an empty list or an earliest timer inserts it at the front of the deadlines |
| `MillisTimers.TimerLists.FindPlace` | teensy4/EventResponder.cpp:239-255 | The walk stops at the place where the timer belongs by deadline, with its wait counted from the timer before that place |
| `MillisTimers.TimerLists.LinkBetween` | teensy4/EventResponder.cpp:243-252 | The branch for the middle of the list inserts the timer by deadline |
| `MillisTimers.TimerLists.LinkLast` | teensy4/EventResponder.cpp:254-258 | The branch for the end of the list inserts the timer by deadline |
| `MillisTimers.TimerLists.End` | teensy4/EventResponder.cpp:263-294 | Refines removal from whichever list the timer is on, does nothing for a timer that is off, and leaves every other deadline as it was |
| `MillisTimers.TimerLists.UnlinkWaiting` | teensy4/EventResponder.cpp:278-291 | The search through the singly linked waiting list takes out exactly the ended timer |
| `MillisTimers.TimerLists.AddToWaitingList` | teensy4/EventResponder.cpp:212-220 | The timer becomes the first of the waiting list |
| `MillisTimers.TimerLists.Begin` | teensy4/EventResponder.cpp:192-200 | Refines begin: ends the timer if it runs or waits, then leaves it waiting without a period and with the event given, or off and with its old event for time 0 |
| `MillisTimers.TimerLists.BeginRepeating` | teensy4/EventResponder.cpp:202-210 | Refines begin with a period, with the event given likewise |
| `MillisTimers.TimerLists.Perform` | teensy4/EventResponder.cpp:192-326 | One begin, end or tick refines its step; a begin with a time sets the event of that timer and of no other, and the events take exactly one trigger of its own event for each fired timer, in order |
| `MillisTimers.TimerLists.LowerFirst` | teensy4/EventResponder.cpp:300-302 | Taking one tick off the first timer alone lowers every deadline by exactly one |
| `MillisTimers.TimerLists.FireFirst` | teensy4/EventResponder.cpp:305-315 | The first due timer leaves the list and triggers its own event once, with status 0; no other responder's status changes; a repeating timer goes back with its whole period |
| `MillisTimers.TimerLists.FireDue` | teensy4/EventResponder.cpp:296-316 | The firing loop ends; it fires exactly the timers with nothing left to wait, once each, in list order, triggering their events in that order with status 0 and leaving every other status, puts the repeating ones back and lowers every deadline left by one |
| `MillisTimers.TimerLists.RunFromTimer` | teensy4/EventResponder.cpp:296-326 | A tick on the linked lists is a tick of the schedule: the due timers fire in order, each triggering its event once with status 0 while every other status stays, then every waiting timer joins the running list |
| `MillisTimers.TimerLists.PerformAll` | teensy4/EventResponder.cpp:192-326 | Any sequence of begin, end and tick on the linked lists goes through the run of the schedule; what each tick fires is that run's log, and the events take exactly the triggers of what fired, in order: for each timer, the event it was last begun with |
| `MillisTimers.TimerLists.BeginAndPerform` | teensy4/EventResponder.cpp:192-326 | The firing times on the linked lists themselves: a timer begun with ms >= 1 and left alone is fired by tick max(ms, 2), when repeating by every ms-th tick after that, and by no other |
| `EventQueues.RunDispatchesInOrder` | teensy4/EventResponder.cpp:49-183 | In every run of trigger, clear, detach, attach and dispatch whose steps are all safe: called, then about to be called, then queued responders are the accepted triggers that were not withdrawn, in the order they were accepted; accepted triggers and calls are never undone |
| `EventQueues.StepKeepsInv` | teensy4/EventResponder.cpp:49-183 | A step keeps each queue linked, free of duplicates and holding exactly the triggered responders attached to it, but for one that is about to be called and is on no queue, if and only if it is safe: dispatches always are; clear and detach if the links hold; trigger and attach under TriggerIsSafe and AttachIsSafe |
| `EventQueues.TriggerKeepsExact` | teensy4/EventResponder.cpp:49-87 | A trigger always leaves the queues linked, without duplicates and holding exactly the triggered responders attached to them that are not being dispatched; a repeated one coalesces |
| `EventQueues.TriggerKeepsInv` | teensy4/EventResponder.cpp:49-87 | It leaves no responder queued that is about to be called, if and only if it does not queue one whose flag a clear has lowered during the dispatch |
| `EventQueues.CallKeepsExact` | teensy4/EventResponder.cpp:106-108 | Lowering the flag and calling leaves the queues exact if and only if the responder is on neither |
| `EventQueues.RetriggerIsLowered` | teensy4/EventResponder.cpp:94-149 | Dispatch begun, clear, trigger, call: the responder ends up queued with its flag down |
| `EventQueues.ClearKeepsInv` | teensy4/EventResponder.cpp:116-149 | Clearing keeps the queues exact if and only if the links hold: the responder is not to be unlinked a second time, or what came behind it is still the first |
| `EventQueues.ClearEffect` | teensy4/EventResponder.cpp:116-149 | Clearing takes the responder off both queues, lowers its flag, and changes no other responder; the lists still run through the queues if and only if the links hold |
| `EventQueues.ClearedIsCalled` | teensy4/EventResponder.h:148-150 | A clear after the dispatch has begun does not stop the call |
| `EventQueues.ClearCanLose` | teensy4/EventResponder.cpp:116-149 | A legal run after which clearing the responder being dispatched loses another triggered one from the list |
| `EventQueues.DetachKeepsInv` | teensy4/EventResponder.cpp:152-183 | Detaching keeps the queues exact, although the flag stays as it was, if and only if the links hold |
| `EventQueues.DetachEffect` | teensy4/EventResponder.cpp:152-183 | Detaching takes the responder off both queues, makes a queued kind detached, leaves the flag, and changes no other responder; the links survive under the same condition as for clear |
| `EventQueues.DetachLeavesFlag` | teensy4/EventResponder.cpp:152-183 | Attach, trigger and detach leave the flag up, and attaching again upsets the queue |
| `EventQueues.DetachSilences` | teensy4/EventResponder.h:128-134 | A detached responder is on no queue and a later trigger calls and queues nothing, if and only if its kind was not immediate |
| `EventQueues.AttachKeepsInv` | teensy4/EventResponder.h:86-120 | Attaching keeps the queues exact if and only if the links hold and a flag that is up does not stand for a trigger on no queue: it is down, or the new kind has no queue, or the responder is about to be called from that queue |
| `EventQueues.DispatchKeepsInv` | teensy4/EventResponder.cpp:94-114 | Both halves of a dispatch, taking the head and calling it, keep the queues exact |
| `EventQueues.AllCalled` | teensy4/EventResponder.cpp:94-114 | When a queue has run empty, every accepted trigger that was not withdrawn has led to its call |
| `EventQueues.RoundCalls` | teensy4/EventResponder.h:175-208 | A dispatch calls the oldest queued responder, whatever safe operations happen before its flag is lowered and during the call, and undoes no call and no accepted trigger |
| `EventQueues.StepCallsImmediate` | teensy4/EventResponder.h:139-147 | A trigger of a responder whose kind is immediate calls it exactly once, and no other step makes an immediate call; kinds change by attach and detach alone |
| `EventQueues.RunCallsImmediates` | teensy4/EventResponder.h:139-147 | Over every run of safe steps the immediate calls are the triggers of responders that were immediate at that moment, once each, in order |
| `EventResponders.ResponderList.Append` | teensy4/EventResponder.cpp:54-79 | A responder added to the doubly linked list becomes its last, whether or not the list was empty |
| `EventResponders.ResponderList.Unlink` | teensy4/EventResponder.cpp:120-143 | Taking any responder out of the list leaves the others linked both ways, with first and last right; for one that has been taken off as the first before, the list survives if and only if what it names as next is the first |
| `EventResponders.ResponderList.Pop` | teensy4/EventResponder.cpp:97-112 | Taking the first responder off leaves the rest linked both ways, or an empty list |
| `EventResponders.EventSystem.TriggerEventNotImmediate` | teensy4/EventResponder.cpp:49-87 | The linked lists and flags carry out a trigger and stay sound; the system stays valid if and only if the trigger is safe |
| `EventResponders.EventSystem.TriggerEvent` | teensy4/EventResponder.h:139-147 | Stores the status of this responder and no other, then calls it exactly once if it is immediate, and no other; puts it last on its queue if that is its kind and its flag was down; the lists are sound, and the system stays valid under the same condition |
| `EventResponders.EventSystem.ClearEvent` | teensy4/EventResponder.cpp:116-149 | The linked lists and flags carry out a clear, the answer says whether there was a trigger, and both the lists and the validity of the system survive if and only if the links hold |
| `EventResponders.EventSystem.Detach` | teensy4/EventResponder.h:128-134 | The linked lists and flags carry out a detach, under the same condition |
| `EventResponders.EventSystem.DetachNoInterrupts` | teensy4/EventResponder.cpp:152-183 | The lists lose the responder wherever it was and its flag stays; if it had been taken off, they survive if and only if what it names as next is the first |
| `EventResponders.EventSystem.Attach` | teensy4/EventResponder.h:86-120 | Detaches, then takes the new kind; the system stays valid if and only if AttachIsSafe, and the lists survive if and only if the links hold |
| `EventResponders.EventSystem.RunFromInterrupt` | teensy4/EventResponder.cpp:94-114 | Whatever safe operations happen during each round, triggers, clears, detaches and attaches among them, the loop ends with an empty queue and with every accepted trigger that was not withdrawn called, in order |
| `EventResponders.EventSystem.TakeInterrupt` | teensy4/EventResponder.cpp:97-106 | Takes the oldest queued responder, or nothing exactly when the queue is empty |
| `EventResponders.EventSystem.TakeYield` | teensy4/EventResponder.h:175-204 | Takes the oldest queued responder; takes nothing exactly on an empty queue, in an interrupt or inside another dispatch |
| `EventResponders.EventSystem.RunFromYield` | teensy4/EventResponder.h:175-208 | One dispatch of the oldest queued responder, whatever safe operations happen meanwhile, or nothing in an interrupt, inside another dispatch or on an empty queue |
| `EventResponders.EventSystem.PerformAll` | teensy4/EventResponder.cpp:49-183 | Any sequence of safe operations on the linked queues goes through the run of the queues, so that the theorem on all runs holds of the linked form |
| `BlockOwnership.RunConservesBlocks` | teensy4/AudioStream.cpp:55-191 | In every run from a fresh pool whose steps are all safe: blocks in use plus free blocks are all blocks, a block is free exactly when it has no owner, and the counter of a block in use equals the queue slots that hold it plus the callers' handles |
| `BlockOwnership.StepKeepsInv` | teensy4/AudioStream.cpp:81-191 | A step keeps counters, owners and free blocks in agreement if and only if it is safe: allocate and both receives always are, release and transmit under the conditions below |
| `BlockOwnership.AllocateKeepsInv` | teensy4/AudioStream.cpp:81-119 | A block that is handed out had no owner and now has one |
| `BlockOwnership.ReleaseKeepsInv` | teensy4/AudioStream.cpp:124-141 | A release keeps the counters right if and only if a caller holds the block, or it is free with a counter above 1; a holder's release puts the block back in the pool exactly when it gives up the last ownership, and no other block moves |
| `BlockOwnership.ReleaseTwice` | teensy4/AudioStream.cpp:124-141 | Allocate, release, release: the count of used blocks is -1 |
| `BlockOwnership.TransmitEffect` | teensy4/AudioStream.cpp:150-160 | The walk along the connections fills exactly the connected slots that were empty, each once, and counts one owner for each, modulo 256 |
| `BlockOwnership.TransmitSlots` | teensy4/AudioStream.cpp:150-160 | Afterwards exactly the slots that were occupied and the given ones are; an occupied slot keeps its block |
| `BlockOwnership.TransmitKeepsInv` | teensy4/AudioStream.cpp:150-160 | The counters stay right if and only if the block ends up with fewer than 256 owners and a free block gets none |
| `BlockOwnership.TransmitCanWrap` | teensy4/AudioStream.cpp:150-160 | A legal run to 255 owners after which one more transmit makes the counter 0 |
| `BlockOwnership.ReceiveKeepsInv` | teensy4/AudioStream.cpp:165-173 | Receiving hands an ownership from the slot to the caller; every block has as many owners as before |
| `BlockOwnership.ReceiveWritableKeepsInv` | teensy4/AudioStream.cpp:177-191 | The caller becomes the only owner of what it gets; a shared block loses exactly one owner, the slot, even when no copy can be allocated |
| `BlockOwnership.FreshInv` | teensy4/AudioStream.cpp:55-77 | After initialisation every block is free and owned by no one |
| `BlockOwnership.UsedCountsOwned` | teensy4/AudioStream.cpp:55-141 | The count of used blocks is zero exactly when no slot and no caller has a block |
| `BlockOwnership.InitializeKeepsInv` | teensy4/AudioStream.cpp:55-77 | Setting the memory up, the first time or again, keeps the counters right if and only if the count of used blocks is zero |
| `BlockOwnership.InitializeTwice` | teensy4/AudioStream.cpp:55-77 | Setting the memory up while a caller has the only block makes it free and held |
| `BitWords.Clz` | teensy4/AudioStream.cpp:104-105 | Counting leading zeros finds the highest set bit |
| `BitWords.FromTop` | teensy4/AudioStream.cpp:105-127 | The bit written by allocate as 0x80000000 >> n is bit 31 - n, the one release addresses from the block's index |
| `BitWords.ClearBit` | teensy4/AudioStream.cpp:105-106 | The allocator's mask clears the chosen bit and no other |
| `BitWords.SetBit` | teensy4/AudioStream.cpp:127-136 | Release sets its bit and no other |
| `BitWords.NonZeroHasBit` | teensy4/AudioStream.cpp:99-104 | A word that is not zero has a free block |
| `AudioStreams.ClearShows` | teensy4/AudioStream.cpp:105-106 | Clearing bit i of word w removes block 32w + i from the free blocks and no other |
| `AudioStreams.SetShows` | teensy4/AudioStream.cpp:127-136 | Setting bit i of word w adds block 32w + i to the free blocks and no other |
| `AudioStreams.NoBits` | teensy4/AudioStream.cpp:93-103 | If every word is zero no block is free |
| `AudioStreams.MatchingIsFed` | teensy4/AudioStream.cpp:152-155 | The slots that the walk offers a block to are exactly those that some connection from the given output leads to |
| `AudioStreams.AudioPool.FirstWord` | teensy4/AudioStream.cpp:91-103 | The scan from the hint finds the first word with a free block among all words, or that no block is free: the hint hides nothing |
| `AudioStreams.AudioPool.TakeBit` | teensy4/AudioStream.cpp:88-113 | Finds no block exactly when none is free; else the block it names, by its word and leading zeros, is the one whose bit it clears, and the hint is that word, or the next once the word is empty |
| `AudioStreams.AudioPool.FirstBit` | teensy4/AudioStream.cpp:104-113 | The block computed from word and leading zeros is free: the highest of the lowest word that has one |
| `AudioStreams.AudioPool.Allocate` | teensy4/AudioStream.cpp:81-119 | Returns null exactly when no block is free; else a free block, whose only owner is now the caller; the record of most blocks used is raised exactly if more are in use than it says |
| `AudioStreams.AudioPool.ClaimBlock` | teensy4/AudioStream.cpp:109-116 | The block of the bit is counted as used and has one owner, and the record of most blocks used keeps up |
| `AudioStreams.AudioPool.PutBit` | teensy4/AudioStream.cpp:127-137 | The block becomes free, and the hint is the lower of what it was and the block's word, so that it still hides nothing |
| `AudioStreams.AudioPool.Release` | teensy4/AudioStream.cpp:124-141 | Bitmap, hint, counter and count of used blocks carry out a release of any block of the pool; the pool stays valid if and only if the release is safe |
| `AudioStreams.AudioPool.OfferTo` | teensy4/AudioStream.cpp:154-157 | An empty slot gets the block and one more owner is counted, modulo 256; an occupied slot is left alone |
| `AudioStreams.AudioPool.Transmit` | teensy4/AudioStream.cpp:150-160 | The walk carries out a transmit of any block of the pool: the slots that connections from this output feed hold the block if they were empty, and every other slot is as before; the pool stays valid if and only if the transmit is safe |
| `AudioStreams.AudioPool.ReceiveReadOnly` | teensy4/AudioStream.cpp:165-173 | The caller gets the block of the slot, which is then empty; null exactly for an empty slot or an input that does not exist |
| `AudioStreams.AudioPool.ReceiveWritable` | teensy4/AudioStream.cpp:177-191 | The caller gets nothing from an empty slot, the block itself if no one else owns it, else a formerly free block with the same samples, or null when none is free; no other block's samples change and the shared block loses one owner either way |
| `AudioStreams.AudioPool.InitializeMemory` | teensy4/AudioStream.cpp:55-77 | At any time: every block of the new storage is free and knows its index, what is queued or held and the count of used blocks stay, and the pool is valid if and only if that count was zero |
| `SerialTransmit.RunTransmitsInOrder` | teensy4/HardwareSerial.cpp:522-646 | In every interleaving of writer, polled drain, handler and UART: what went to the port followed by the ring is what write9bit queued, in order; so is what left on the line followed by what is in flight and the ring; a word in the ring has its interrupt enabled and the flag up; once the flag is down, everything written has left on the line |
| `SerialTransmit.StepKeepsInv` | teensy4/HardwareSerial.cpp:522-646 | Every step keeps order, flags and capacity |
| `SerialTransmit.RunPublishesWritten` | teensy4/HardwareSerial.cpp:522-563 | In every interleaving the words queued, then the one under way, are the words that write9bit was called with, in order |
| `SerialTransmit.IrqKeepsInv` | teensy4/HardwareSerial.cpp:612-645 | The handler lowers the flag only when ring, FIFO and line are empty, and always leaves an interrupt enabled while it is up |
| `SerialTransmit.IrqSends` | teensy4/HardwareSerial.cpp:612-645 | The handler moves the oldest words on, in order, until FIFO is full or ring empty, exactly if its interrupt is enabled and the FIFO at or below its watermark; the enables and the flag follow exactly |
| `SerialTransmit.PollKeepsInv` | teensy4/HardwareSerial.cpp:531-548 | The polled drain loses and reorders nothing, and the writer proceeds only when there is room |
| `SerialTransmit.PollSends` | teensy4/HardwareSerial.cpp:531-549 | A test with room in the ring ends the wait; on a full ring, where the handler cannot run and the FIFO is at or below its watermark, it sends exactly the oldest word to the port |
| `SerialTransmit.WriterGetsRoom` | teensy4/HardwareSerial.cpp:522-549 | write9bit gets its slot without one run of the handler: in whatever order its tests and the UART take their steps, these are boundedly many, and when none is left there is room for the word |
| `SerialTransmit.DrainingProgresses` | teensy4/HardwareSerial.cpp:612-645 | Every step of the UART, and every run of the handler that has a request, leaves strictly less to do |
| `SerialTransmit.IdleIrq` | teensy4/HardwareSerial.cpp:612-645 | A run of the handler without a request changes nothing on the transmit side |
| `SerialTransmit.SomethingDrains` | teensy4/HardwareSerial.cpp:612-645 | While the flag is up, the UART can shift or the handler has a request |
| `SerialTransmit.DrainEnds` | teensy4/HardwareSerial.cpp:511-514 | In whatever order UART and handler take their steps there are boundedly many, and when none is left the flag is down and every word written before is on the line |
| `SerialReceive.RunReceivesInOrder` | teensy4/HardwareSerial.cpp:438-509 | In every interleaving of arrivals, interrupts, reads and peeks: the words read, then the ring, then the FIFO are what arrived less what the handler dropped, in order, exactly if every word fits a ring element, and as far as elements hold words otherwise |
| `SerialReceive.ExactIfAllFit` | teensy4/HardwareSerial.cpp:438-509 | For given arriving words, what read gave out, the ring and the FIFO are exactly what arrived less what was dropped, in every interleaving, if and only if each of the words fits a ring element |
| `SerialReceive.WideWordIsCut` | teensy4/HardwareSerial.cpp:581-594 | A 9-bit word that goes through a ring of bytes is read as its low eight bits |
| `SerialReceive.StepKeepsInv` | teensy4/HardwareSerial.cpp:438-610 | Every step keeps order and capacity, and no step can take the word away that a suspended read or peek is about to return |
| `SerialReceive.IrqKeepsInv` | teensy4/HardwareSerial.cpp:571-610 | Emptying the FIFO keeps the words in order, less those dropped |
| `SerialReceive.IrqReceives` | teensy4/HardwareSerial.cpp:571-610 | A FIFO above its watermark, or the idle flag, makes the handler empty the FIFO: its first words go behind the ring's, as many as are free slots, each cut to an element; without either nothing moves |
| `SerialReceive.FifoNeverFills` | teensy4/HardwareSerial.cpp:571-594 | If the handler runs after every arrival that takes the FIFO above the watermark, with the idle flag or without, the FIFO never fills |
| `SerialReceive.CheckKeepsInv` | teensy4/HardwareSerial.cpp:444-461 | The second look with interrupts off, which may take a word straight from the FIFO or move it into the ring, keeps the words in order |
| `SerialReceive.ReadTakesFirst` | teensy4/HardwareSerial.cpp:472-509 | What read returns is the first word waiting, ring before FIFO, and exactly that one is gone; -1 exactly if there is none |
| `SerialReceive.DropsOnlyWhenFull` | teensy4/HardwareSerial.cpp:581-595 | The handler drops words only when that leaves the ring holding all but one of its slots, and none is counted both as dropped and as kept |
| `SerialReceive.PeekTakesNothing` | teensy4/HardwareSerial.cpp:438-470 | peek shows the first waiting word, or -1 exactly if there is none, and leaves all words waiting, also when it moves one from the FIFO into the ring |
| `SerialReceive.ReaderAdvances` | teensy4/HardwareSerial.cpp:438-509 | A call of read or peek always has a step to take, which answers or brings it nearer to its answer; arrivals and the handler leave it where it is |
| `SerialReceive.ReadAnswers` | teensy4/HardwareSerial.cpp:438-509 | Over every run, read and peek answer after at most three steps of their own, whatever arrives and however often the handler runs in between |
| `SplitRings.LiveCount` | teensy4/HardwareSerial.cpp:386-413 | The number of queued words follows from head and tail; the ring is empty exactly if they are equal and full exactly if the slot behind the head is the tail |
| `SplitRings.LiveStore` | teensy4/HardwareSerial.cpp:552-556 | The slot being filled is not among the queued words |
| `SplitRings.LivePublish` | teensy4/HardwareSerial.cpp:557-560 | Moving the head queues the filled slot last, also around the end of the ring |
| `SplitRings.LivePop` | teensy4/HardwareSerial.cpp:495-501 | Moving the tail takes the oldest word, also around the end of the ring |
| `SplitRings.LiveGrows` | teensy4/HardwareSerial.cpp:415-436 | More slots behind the last keep the queued words if and only if these do not wrap |
| `SplitRings.SplitRing.Store` | teensy4/HardwareSerial.cpp:552-556 | Of the two arrays together, exactly the given slot changes |
| `SplitRings.SplitRing.Load` | teensy4/HardwareSerial.cpp:496-500 | The word in the given slot of the two arrays together |
| `SplitRings.SplitRing.AddMemory` | teensy4/HardwareSerial.cpp:415-436 | The ring grows by the memory added; it stays sound if and only if no memory was added before and it has at most 65536 slots, and keeps its words if and only if they do not wrap or nothing is added |
| `SplitRings.AddTwice` | teensy4/HardwareSerial.cpp:428-436 | Adding memory twice makes the size count slots that are not there |
| `SplitRings.AddToWrapped` | teensy4/HardwareSerial.cpp:428-436 | Two queued words around the end of a ring, and memory added: a word that nobody wrote is queued between them |
| `SplitRings.HeadWraps` | teensy4/HardwareSerial.cpp:428-436 | With 65537 slots the head behind slot 65535 is stored as 0, and the word in slot 0 is queued although nobody wrote it |
| `HardwareSerials.HardwareSerial.AddMemoryForWrite` | teensy4/HardwareSerial.cpp:428-436 | On a live port, with a write under way or not: the port stays sound if and only if no memory was added before, the ring has at most 65536 slots, the queued words do not wrap, and the pending slot is not slot 0 |
| `HardwareSerials.HardwareSerial.AddMemoryForRead` | teensy4/HardwareSerial.cpp:415-426 | On a live port: it stays sound if and only if no memory was added before, the ring has at most 65536 slots and the queued words do not wrap |
| `HardwareSerials.AddWhileWriting` | teensy4/HardwareSerial.cpp:428-436 | A write under way that has taken slot 0 of two, and memory added: the port is no longer sound |
| `HardwareSerials.HardwareSerial.WriteBegin` | teensy4/HardwareSerial.cpp:522-530 | Refines the start of a write; the word is cut to a ring element |
| `HardwareSerials.HardwareSerial.WritePoll` | teensy4/HardwareSerial.cpp:531-549 | Refines one round of the wait: through when there is room; on a full ring, if the handler cannot run and the FIFO is at or below its watermark, the oldest word goes to the port and leaves the ring |
| `HardwareSerials.HardwareSerial.WriteFill` | teensy4/HardwareSerial.cpp:552-556 | Fills the free slot, changing no queued word |
| `HardwareSerials.HardwareSerial.WritePublish` | teensy4/HardwareSerial.cpp:557-561 | Queues the filled slot as the newest word, with flag and interrupt enable up |
| `HardwareSerials.HardwareSerial.Write` | teensy4/HardwareSerial.cpp:522-563 | A whole call with room in the ring queues its word last |
| `HardwareSerials.HardwareSerial.IRQHandler` | teensy4/HardwareSerial.cpp:565-646 | One run refines one step of each protocol: a FIFO above its watermark or the idle flag empties the FIFO into the ring as far as that has slots; an enabled transmit interrupt fills the FIFO or empties the ring; idle flag, enables and flag follow |
| `HardwareSerials.HardwareSerial.HandleReceive` | teensy4/HardwareSerial.cpp:571-610 | The loop moves the FIFO into the ring as far as it fits, drops the rest, and clears the idle flag |
| `HardwareSerials.HardwareSerial.MoveWords` | teensy4/HardwareSerial.cpp:618-630 | The loop moves as many words as the ring has and the FIFO takes, oldest first |
| `HardwareSerials.HardwareSerial.HandleTransmit` | teensy4/HardwareSerial.cpp:612-645 | Interrupt enables and flag follow: an emptied ring switches from the transmit to the completion interrupt, and completion lowers the flag |
| `HardwareSerials.HardwareSerial.Flush` | teensy4/HardwareSerial.cpp:511-514 | In whatever order UART and handler carry on, returns with the flag down and every word written before on the line |
| `HardwareSerials.HardwareSerial.ReadSample` | teensy4/HardwareSerial.cpp:472-478 | Refines the first comparison of head and tail |
| `HardwareSerials.HardwareSerial.ReadCheck` | teensy4/HardwareSerial.cpp:479-494 | Refines the second look; read takes the first word of the FIFO directly, and peek (lines 444-461) puts it into the reset ring |
| `HardwareSerials.HardwareSerial.ReadLoad` | teensy4/HardwareSerial.cpp:495-500 | Fetches the oldest word of the ring |
| `HardwareSerials.HardwareSerial.ReadStore` | teensy4/HardwareSerial.cpp:501-508 | Takes that word out of the ring and returns it |
| `HardwareSerials.HardwareSerial.Available` | teensy4/HardwareSerial.cpp:399-413 | Equals the words in the receive ring plus those in the FIFO |
| `HardwareSerials.HardwareSerial.AvailableForWrite` | teensy4/HardwareSerial.cpp:386-394 | Together with the queued words makes up all slots but one |
| `SerialRuns.PerformAll` | teensy4/HardwareSerial.cpp:438-646 | Any possible sequence of steps of program, handler and UART on the port goes through the runs of both protocols, so that the theorems on all runs hold of the port; it returns what has left on the line and what read gave |
| `SerialRuns.RunInOrder` | teensy4/HardwareSerial.cpp:438-646 | From a port at rest, in every order of steps: what has left on the line, then the UART, the ring and the call under way are the words written, in order, as far as a ring element holds them, and all have left once the flag is down; what read returned, then the ring, then the FIFO are the words that arrived, in order, less the dropped, exactly if each fits an element |
| `TextReplace.Find` | teensy4/WString.cpp:632-650 | The leftmost occurrence, as strstr finds it, or that there is none |
| `TextReplace.ReplaceAllStep` | teensy4/WString.cpp:632-646 | Replacing the leftmost occurrence and going on behind it gives the leftmost non-overlapping replacement |
| `TextReplace.ReplaceAllLength` | teensy4/WString.cpp:649-653 | The result is longer by the difference of the lengths for each occurrence counted |
| `TextReplace.OrdersAgree` | teensy4/WString.cpp:656-664 | If no match can overlap another match or a replacement, as for a one-character search string, replacing from the right gives the leftmost replacement |
| `TextReplace.OrdersAgreeExactly` | teensy4/WString.cpp:648-664 | For a longer replacement the two orders agree on every text if and only if no proper tail of the search string starts the search string or the replacement |
| `TextReplace.SizeSufficesExactly` | teensy4/WString.cpp:648-664 | For a longer replacement, the work from the right needs exactly the length of the leftmost replacement on every text if no proper tail of the search string starts the replacement, and more than that on some text otherwise |
| `TextReplace.OneReplaced` | teensy4/WString.cpp:656-664 | A match at the front makes one replacement necessary, of that match or of one that overlaps it |
| `TextReplace.SameLength` | teensy4/WString.cpp:648-664 | If no match can reach into a replacement, working from the right makes as many replacements as working from the left |
| `TextReplace.StraddlingDiffers` | teensy4/WString.cpp:656-664 | If a tail of the search string starts the replacement, there is a text on which replacing from the right makes the result too long |
| `TextReplace.OverlappingDiffers` | teensy4/WString.cpp:656-664 | If the search string overlaps itself, there is a text on which the two orders take different matches |
| `TextReplace.GrowingCanDiffer` | teensy4/WString.cpp:648-664 | Replacing "aa" by "aaa" in "aaa" does not give the leftmost replacement |
| `TextReplace.GrowingCanOverrun` | teensy4/WString.cpp:648-664 | Replacing "aa" by "aaa" in "aaa" counts four characters and writes five |
| `WStrings.SoundExactly` | teensy4/WString.cpp:648-665 | When no match can reach into a replacement, a growing replace stays in its buffer if and only if the length of the result is less than 2^32 - 1, or it gives up |
| `WStrings.SizeCanWrap` | teensy4/WString.cpp:649-655 | An input of short strings whose counted size wraps around and is far too small |
| `WStrings.WrapCanHideMatches` | teensy4/WString.cpp:649-654 | An input whose counted size wraps to the old length, so that nothing is replaced |
| `CStrings.TextAtIs` | teensy4/WString.cpp:632-650 | The text that starts at a place of a buffer reaches to the first NUL |
| `CStrings.MemCpyWithin` | teensy4/WString.cpp:638-647 | A copy upwards within a buffer moves the old bytes intact to a lower or a disjoint place |
| `CStrings.StrCpyDown` | teensy4/WString.cpp:647 | Moves a text and its NUL intact to a lower, overlapping place |
| `WStrings.WString.ReplaceSame` | teensy4/WString.cpp:631-635 | Equal lengths: exactly the leftmost non-overlapping replacement, in place |
| `WStrings.WString.ReplaceShorter` | teensy4/WString.cpp:636-647 | Shorter replacement: exactly the leftmost non-overlapping replacement with the right length and NUL, the write place never passing the unread text |
| `WStrings.WString.MoveDownAndReplace` | teensy4/WString.cpp:639-644 | Closing the gap and writing the replacement leaves everything behind the match unread and unchanged |
| `WStrings.WString.SizeAfterReplace` | teensy4/WString.cpp:649-653 | The size counted in advance is the length of the leftmost replacement, in 32 bits |
| `WStrings.WString.ReplaceAt` | teensy4/WString.cpp:658-662 | Opens room and replaces one match; the text before and behind it stays |
| `WStrings.WString.ReplaceFromRight` | teensy4/WString.cpp:656-664 | The loop computes replacement from the right end; it writes behind the buffer if and only if that is longer than the capacity |
| `WStrings.WString.ReplaceLonger` | teensy4/WString.cpp:648-665 | Longer replacement: replacement from the right end, or the old text if the counted size is the old length or the memory for it is refused, or an access outside the buffer, exactly under StaysSound |
| `WStrings.WString.Replace` | teensy4/WString.cpp:625-667 | All branches together, an empty search string changing nothing; no access outside the buffer if no match can reach into a replacement and the result is shorter than 2^32 - 1 |
| `WStrings.WString.ReplaceDisjoint` | teensy4/WString.cpp:625-667 | If no match can overlap a match or a replacement, or the replacement is no longer, and the result is shorter than 2^32 - 1: the leftmost non-overlapping replacement, within the capacity, or the old text if memory is refused |
| `WStrings.WString.LastIndexOf` | teensy4/WString.cpp:577-588 | The greatest place not above fromIndex where a non-empty string occurs, or -1 |
| `WStrings.WString.LastIndexOfChar` | teensy4/WString.cpp:561-570 | The same for a character other than NUL, and every byte of the buffer is as before; for NUL, the place where the text was cut |
| `WStrings.WString.Append` | teensy4/WString.cpp:248-266 | The old text followed by the source text, also when the source lies in this buffer and that is reallocated; unchanged if memory is refused |
| `WStrings.WString.CopyBehind` | teensy4/WString.cpp:258-263 | The source, in this buffer or another, stands behind the old text, followed by a NUL |
| `WStrings.WString.Reserve` | teensy4/WString.cpp:130-138 | Succeeds exactly if there is room or memory is granted, and the text stays, except for a size of 2^32 - 1, for which the buffer is lost |
| `WStrings.WString.ChangeBuffer` | teensy4/WString.cpp:140-149 | A larger buffer with the same text, or nothing changed; for 2^32 - 1 characters the block asked for has no bytes, and the old one is freed |
| `WStrings.RemoveLength` | teensy4/WString.cpp:678-687 | The length computed is right if and only if the end of the removed range fits 32 bits |
| `WStrings.RemoveCanLengthen` | teensy4/WString.cpp:678-687 | Removing 2^32 - 1 characters from place 1 of three gives length four |
| `WStrings.RemoveBehind` | teensy4/WString.cpp:678-687 | Removing 2^32 - 1 characters from place 1 of "abc" in a full buffer writes behind it |
| `WStrings.WString.Remove` | teensy4/WString.cpp:678-687 | Cuts out the range, or everything behind its start if it reaches beyond the end; when the end exceeds 32 bits, repeats text instead, or writes behind the buffer exactly if that does not fit |
| `WStrings.WString.RemoveFrom` | teensy4/WString.cpp:669-676 | Cuts everything from a place on; a place beyond the end changes nothing |
| `WStrings.WString.Trim` | teensy4/WString.cpp:707-718 | Of blanks, a text that neither starts nor ends with one, and blanks again, exactly that text is left, the blanks being tab, line feed, vertical tab, form feed, carriage return and space; also for a text of nothing else |
| `WStrings.TrimmedIsUnique` | teensy4/WString.cpp:707-718 | There is only one such result |
| `WStrings.TrimmedIsMiddle` | teensy4/WString.cpp:711-714 | The trimmed text of blanks, a text that neither starts nor ends with one, and blanks is the middle one |
| `Histories.KeepWithdraw` | teensy4/EventResponder.cpp:116-183 | Withdrawing a queued trigger removes exactly that one from the history |
| `Histories.KeepNone` | teensy4/HardwareSerial.cpp:581-595 | Dropping the last words of the stream leaves the words kept before |

## Left out

Contracts that say less than the code does, or ask for more than it does:

- EventQueues.RunDispatchesInOrder: what happens in a run after its first unsafe step; `StepKeepsInv` says exactly which
  steps those are.
- EventResponders.EventSystem.ClearEvent: which responders a list still reaches once a stale link has become its first.
- EventResponders.EventSystem.PerformAll: no function being called from yield keeps the run from dispatching from yield.
- MillisTimers.TimerLists.RunFromTimer: the functions that immediate responders call do not call timers or responders, and
  the merge of waiting timers is not preempted.
- WStrings.WString.Replace: the arguments are not the string itself; where the code leaves its buffer the model stops. So
  it does in `Remove`.
- WStrings.WString.Append: a source within the string reaches to its end, as the callers' do.
- AudioStreams.AudioPool.Transmit: the connection list is a sequence that does not change and names existing inputs, and
  the block belongs to the pool, as for `Release`.
- AudioStreams.AudioPool.InitializeMemory: blocks of an earlier storage that are still queued are known by their index only.
- SerialTransmit.DrainEnds: nothing is written while flush waits.
- SerialTransmit.RunTransmitsInOrder: the UART does not shift during a run of the handler.
- SerialRuns.RunInOrder: no memory is added during the run.
- SerialReceive.RunReceivesInOrder: without `clear`, which races with the handler and leaves the FIFO alone.

Parts of the repository that are not modelled:

- `AudioConnection::connect` and `disconnect`, `update_all` and the CPU-usage counters; the count of used blocks does not wrap at
  16 bits.
- `waitForEvent`, the data and context pointers of events, and `attach` priorities; a responder's function is the fact
  that it was called.
- Baud rate, pins, RTS, CTS, the transmit-enable pin, `end`, the list of serial event functions, and a FIFO that
  overflows because the handler comes too late.
- String: conversion, comparison, `substring`, `indexOf`, replacement of characters, upper and lower case, copy and move,
  and embedded NUL characters.
- The applications under `src`, register headers, intrinsics, AVR emulation and DMA.
