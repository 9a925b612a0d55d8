# Operating-system projects: a Dafny model

This project models four small operating-system components and proves properties of the model.

* **Inode file system** (HW4). A 64 MB byte array seen as 16384 blocks of 4096 bytes: eight inode
  blocks, one bitmap block, and allocatable blocks from 9 on. `Storage` is the device, `Bitmap` the
  first-fit allocator, `Layout` the meaning of the bytes and the ownership invariant, `Operations`
  and `Writing` the effect of format, create and write on the disk as a value, `Effects` the same
  byte by byte, `FileOps`
  (Files.dfy) the code that works on the device block by block, `Runs` and `EntryCounts` the
  theorems about whole runs, `Session` the code executing a list of operations as such a run. The main result is a refinement: format, create, write and read behave
  like a map from inode numbers to byte sequences.
* **User-level threads** (HW2). `Scheduler` is the round-robin scan, `CondProtocol` the mutex,
  condition variable, producer and consumer as a machine that executes one statement of the running
  thread at a time with a switch possible anywhere, `Wakeup` the wakeup theorems about its runs,
  `Rounds` whole rounds of producer and consumer, `CondVar` signal and broadcast as methods, `LinkedList` the doubly linked list on the heap.
* **Event-driven replies** (HW1). `Replies` is the byte stream of one reply under arbitrary short
  writes, in the event-driven and the blocking form; `Clients` the client objects that do this in
  place; `Server` the client list, a service round and the sweep of dead clients.
* **Frames and page table** (HW3). `Frames` is the frame bitmap with first-fit runs, `PageTable` the
  four-level table as a flat map of pages.

Code that updates state in place is a class with methods. Each method is proved equal to a
specification function of the old state, and the properties are lemmas about that function and, for
runs, about sequences of states. `hide` at the top of a proof only keeps definitions it does not
need away from the solver.

## How the model reads the source

* A block buffer on the C stack is a local sequence of bytes; the device, bitmap, page-table memory,
  client buffers and the caller's read buffer are arrays. C integers are unbounded except where
  width matters: the 64-bit end-of-range check of a read, the allocator's -1 stored in a 64-bit
  field, frame counters and 52-bit addresses are written out. Bytes are 8-bit vectors; integers on
  disk are little-endian.
* `ifile_create` rejects inode numbers above the number of inode blocks (HW4-skeleton/files.c:63),
  although its comment speaks of the maximum inode number; the model follows the code, so files have
  inode numbers 0 to 8.
* Files end strictly below 512 * 4096 bytes: at that size the last block number is 512 and the code
  would go past the indirect block. A caller's buffer must hold the bytes it is said to hold.
* A gap between the old end of a file and the position of a write is not zeroed by the code, and its
  bytes are left open.
* Nothing in the allocator looks at the last block of the disk. That creating or writing keeps the
  file system sound holds exactly when there is room (`CreateKeepsInvariantIff`,
  `WriteKeepsInvariantIff`), and room is proved for every run that creates each inode at most once
  (`RoomForLegal`); `RecreateLeaks` says what creating a file again costs, and
  `RecreatesLeaveDisk` that doing so often enough leaves the disk.
* The source never assigns the number fields of the thread table. The bound on the scheduler's bypass
  holds in every run exactly when each slot's number is its index modulo the table size
  (`EveryoneRunsIff`); `UnnumberedStarves` says what happens while they all hold 0. The protocol
  machine and `CondVar` take the table to be well numbered.
* A run of the condition variable loses no waiter exactly when two things hold (`LosesNothingIff`):
  every blocked waiter that yields finds some other ACTIVE thread, and no waiter is switched out
  while it is BLOCKED and holds the internal mutex. Without the first the wait returns at once
  (`UnfairReturns`, `EarlyReturn`); without the second the waiter keeps its locks for ever
  (`StuckForever`, `AlarmStrands`). The alarm may switch at any time in the model, also while the
  source has the timer off.
* `allocate_frame` and `deallocate_frame` mark and clear only the first frame of a run while counting
  all of them. The accounting properties hold exactly for single frames (`GrantAccountedIff`,
  `ReleaseAccountedIff`); `TwoFramesOverlap` is the smallest request for which they fail.
* In the page table, adding an index to a table address is read as taking that entry of a 512-entry
  table, and `new_node` as `make_node`. The root is indexed by the lowest nine bits of the page
  number, as in the code. An entry whose address is 0 counts as absent, so unmapping, which clears
  only the flags, leaves the page refusing to be mapped again (`MappedOnce`).
* A response header is a C string, so it holds no zero byte. A request that does not parse still gets
  its reply prepared after the client is finished, and may leave it dead with a 403 or 404 status.
* `write_reply` returns before the call that would close the socket, so the blocking sender leaves it
  open; after a failed write the event-driven sender still moves its counters by -1.

## Model

| member | source | states |
|---|---|---|
| Bytes.DecodeEncode | HW4-skeleton/files.h:14-31 | a 64-bit field read back from its bytes is the value stored |
| Bytes.GetPutOther | HW4-skeleton/files.h:44-46 | storing one field leaves every other field of the block alone |
| Bytes.PutBytes | HW4-skeleton/files.h:14-31 | storing a 64-bit field puts its eight bytes in place, the least significant first, and touches no other byte |
| Storage.Device.constructor | HW4-skeleton/storage.c:9-17 | the device has its size and arbitrary contents |
| Storage.Device.BlocksAre | HW4-skeleton/storage.c:19-37 | block b is the b-th stretch of 4096 bytes of the flat array |
| Storage.Device.ReadBlock | HW4-skeleton/storage.c:19-27 | returns the block, or -1 and an untouched buffer past the last block |
| Storage.Device.WriteBlock | HW4-skeleton/storage.c:29-37 | replaces that block of the flat array and no byte of any other; past the last block nothing changes |
| Bitmap.MarkBit | HW4-skeleton/bitmap.c:39 | marking sets one bit of the bitmap and no other |
| Bitmap.AllocIsCounter | HW4-skeleton/bitmap.c:27-49 | when the marked blocks are a prefix, the allocator is a counter; its result is on the disk iff the counter is below the number of blocks, and all-ones only when every bit is set |
| Bitmap.AllocatedIs | HW4-skeleton/bitmap.c:27-49 | on every bitmap, the result is the lowest unmarked allocatable bit and it alone becomes marked, or all are marked |
| Bitmap.BlockBitmap.Init | HW4-skeleton/bitmap.c:16-25 | sets the four geometry variables |
| Bitmap.BlockBitmap.AllocateBlock | HW4-skeleton/bitmap.c:27-49 | the triple scan finds the lowest unmarked allocatable block, marks it alone on the disk, and returns -1 only when none is left |
| Layout.SetSizeFields | HW4-skeleton/files.c:77 | setting a size changes that field of that inode only |
| Layout.SetHeadFields | HW4-skeleton/files.c:82 | setting the indirect block changes that field of that inode only |
| Layout.SetUsedFields | HW4-skeleton/files.c:79 | setting the used flag sets that bit of that inode and changes no other bit of the block |
| Layout.ContentsFrame | HW4-skeleton/files.c:132-204 | a file whose inode, indirect block and data blocks are untouched has the same contents |
| Operations.FormatRefines | HW4-skeleton/files.c:22-55 | whatever the disk held, formatting gives the empty file system with nothing allocated |
| Operations.InvStep | HW4-skeleton/files.c:58-129 | extending one file with the blocks at the frontier keeps all blocks of all files distinct, marked and in range |
| Operations.CreateRefines | HW4-skeleton/files.c:58-97 | creating binds the inode to the empty sequence, keeps every other file, and takes two blocks |
| Operations.CreateKeepsInvariantIff | HW4-skeleton/files.c:82-92 | creation keeps the invariant iff two more blocks fit on the disk |
| Writing.GrowBitmap | HW4-skeleton/files.c:109-110 | growing marks the next consecutive blocks |
| Writing.GrowPointers | HW4-skeleton/files.c:109-122 | the new entries hold those blocks in order and all other entries are kept |
| Writing.ExtensionInv | HW4-skeleton/files.c:99-129 | growing keeps the invariant, every other file, and all data blocks, and takes exactly the blocks the new size needs |
| Writing.StoreRangeAt | HW4-skeleton/files.c:232-278 | each touched block ends up with the old bytes overlaid by the written ones |
| Writing.StoreFrame | HW4-skeleton/files.c:232-278 | storing touches no inode, no bitmap, no indirect block and no block of another file |
| Writing.StoreBytes | HW4-skeleton/files.c:232-278 | storing within a file overlays the buffer on its bytes |
| Writing.WriteRefines | HW4-skeleton/files.c:207-229 | writing makes the range equal the buffer, sets the size to the larger of the old size and the end, keeps every other byte of the file and every other file, and keeps the invariant |
| Writing.WriteKeepsInvariantIff | HW4-skeleton/files.c:109-126 | a write keeps the invariant iff the blocks it needs fit on the disk |
| Effects.CreateHas | HW4-skeleton/files.c:73-94 | on every disk, creation changes exactly the size, indirect-block and used-flag bytes of that inode, the bits of the two blocks it takes, and the new indirect block, which holds one entry and zeroes |
| Effects.WriteMetaHolds | HW4-skeleton/files.c:106-126 | with or without room, a write changes of the inode blocks only the eight size bytes of a growing file, and of the bitmap only the bits of the blocks it takes |
| Effects.WriteBlocksHold | HW4-skeleton/files.c:207-278 | with room, the new pointer entries hold those blocks byte by byte, every touched block is its old bytes overlaid with the buffer, and no other block changes |
| FileOps.SpliceIsBlockAfter | HW4-skeleton/files.c:247-275 | the single, first, middle and last block copies each put the right bytes in place |
| FileOps.PastEndExact | HW4-skeleton/files.c:145 | the 64-bit check decides "past the end" unless the sum wraps to a value within the size |
| FileOps.PastEndWraps | HW4-skeleton/files.c:145 | from the largest position one byte passes the check, whatever the size of the file |
| FileOps.FileSystem.Format | HW4-skeleton/files.c:22-55 | the loops zero the nine metadata blocks and no other, and set the geometry; the result is the empty file system |
| FileOps.FileSystem.Create | HW4-skeleton/files.c:58-97 | rejects inode numbers above 8 without change; otherwise changes exactly the bytes stated by the effect of creation, room or no room, and with room binds the inode to the empty file |
| FileOps.FileSystem.Grow | HW4-skeleton/files.c:99-129 | while the bitmap has unmarked bits the loop fills the new entries, never takes the failure branch, and changes only the size bytes of the inode |
| FileOps.FileSystem.Read | HW4-skeleton/files.c:132-157 | delivers exactly contents[from..from+how_many] and nothing else, or returns -1 and leaves the buffer alone when the range passes the end |
| FileOps.FileSystem.PointersRead | HW4-skeleton/files.c:159-204 | the single-block and multi-block paths both deliver the file's bytes in order |
| FileOps.ReadNext | HW4-skeleton/files.c:186-201 | copying part of a block appends the next file bytes to those delivered |
| FileOps.FileSystem.Write | HW4-skeleton/files.c:207-229 | the write refinement and its byte-level effect, for the code, which stays sound iff the blocks it needs fit on the disk |
| FileOps.FileSystem.PointersWrite | HW4-skeleton/files.c:232-278 | the three-part loop equals the uniform per-block overlay |
| Runs.RoomForLegal | HW4-skeleton/files.c:63-122 | in create-once use every operation finds room within 4617 blocks, so the allocator never fails or leaves the disk |
| Runs.StepRefines | HW4-skeleton/files.c:58-129 | a legal step keeps the invariant, leaks no block and acts on the abstract map as specified |
| Runs.RunRefines | HW4-skeleton/files.c:22-278 | the same for every state of every legal run from any initial disk, with the capacity bound |
| Runs.AllocationCounts | HW4-skeleton/bitmap.c:27-49 | in every legal run the marked set is exactly [9, 9+n) for the n blocks that the files hold, and the next allocation returns 9+n |
| Runs.RecreateLeaks | HW4-skeleton/files.c:73-96 | creating an existing file again leaks exactly the blocks it held |
| Runs.RecreatesLeaveDisk | HW4-skeleton/files.c:82-92 | creating one file 8188 times from a formatted disk leaves its data block past the end of the disk; every state before is sound |
| Session.Apply | HW4-skeleton/files.c:57-229 | one call of the code is one step of a run and acts on the abstract map as specified |
| Session.Execute | HW4-skeleton/files.c:22-278 | the code executing any list of operations with create-once use makes exactly a run of the theorems above, with every return code as promised |
| EntryCounts.RunTails | HW4-skeleton/files.c:91-126 | in every legal run the entries past a file's last block are zero |
| EntryCounts.FileBlocks | HW4-skeleton/files.c:58-129 | in every legal run a file's indirect block and exactly the entries 0..size/4096, entry 511 included, are distinct marked blocks on the disk, owned by nobody else |
| Scheduler.ScanCloser | HW2-skeleton/threads.c:122-132 | while a thread is ACTIVE and not running, the scan finds somebody strictly closer to it |
| Scheduler.FindsNearest | HW2-skeleton/threads.c:122-132 | the scan finds the ACTIVE thread that is nearest going round |
| Scheduler.BoundedBypass | HW2-skeleton/threads.c:120-134 | with slots numbered by their index modulo n, a thread that stays ACTIVE runs within its cyclic distance, hence within n-1 yields, whatever the others do |
| Scheduler.EveryoneRunsIff | HW2-skeleton/threads.c:120-134 | that bound holds for all threads in all runs iff every slot is so numbered |
| Scheduler.MisnumberedStarves | HW2-skeleton/threads.c:123 | if slot c carries the number of another slot, then for every length there is a run in which that other slot stays ACTIVE and never runs |
| Scheduler.UnnumberedStarves | HW2-skeleton/threads.c:57-65 | with all number fields 0, in every run in which slot 1 stays ACTIVE only slot 1 runs from the first yield on |
| Scheduler.ThreadTable.constructor | HW2-skeleton/threads.c:56-65 | one ACTIVE thread, all other slots INVALID, all numbers 0 |
| Scheduler.ThreadTable.Yield | HW2-skeleton/threads.c:120-134 | switches to the nearest ACTIVE slot after the current number, or returns 0 when there is none but that slot; one call is one step of a run of yields |
| CondProtocol.ExecFollows | HW2-skeleton/producer-consumer2.c:15-46 | the exact successor of every statement of producer, consumer, signal and wait, with each lock free or set |
| CondProtocol.SwitchTo | HW2-skeleton/threads.c:120-134 | a switch changes the running thread only, to the nearest other ACTIVE one if there is any |
| CondProtocol.ProducerEffect | HW2-skeleton/producer-consumer2.c:15-26 | what each producer statement changes, locks and counters included |
| Rounds.ProducerRound | HW2-skeleton/producer-consumer2.c:15-26 | from the loop head with both locks free, nine or ten statements later the producer is back, one item more is queued and counted, both locks are free and the first waiter is off the list and ACTIVE |
| Rounds.ConsumerRound | HW2-skeleton/producer-consumer2.c:32-46 | with an item queued, six statements take it: from the loop head, or from the relock of a wait, back to the loop head with the lock free |
| Rounds.ConsumerWaits | HW2-skeleton/synchronization.c:49-55 | with the queue empty, nine statements later the consumer is BLOCKED, last on the list, before its yield, with both locks free |
| CondProtocol.ConsumerEffect | HW2-skeleton/producer-consumer2.c:32-46 | what each consumer statement changes |
| CondProtocol.SignalEffect | HW2-skeleton/synchronization.c:60-71 | what each statement of a signal changes |
| CondProtocol.WaitEffect | HW2-skeleton/synchronization.c:49-54 | what each statement of a wait up to its yield changes |
| CondProtocol.RelockEffect | HW2-skeleton/synchronization.c:55-56 | what the yield and the relock of a wait change |
| CondProtocol.EffectExclusive | HW2-skeleton/synchronization.c:19-40 | no statement lets two threads hold one lock |
| CondProtocol.ExecSafe | HW2-skeleton/producer-consumer2.c:15-50 | every statement keeps exclusion, the counter equation and list order |
| Wakeup.RunSafe | HW2-skeleton/producer-consumer2.c:15-50 | safety in every interleaving, early returns of the wait included |
| Wakeup.MutualExclusion | HW2-skeleton/producer-consumer2.c:15-50 | at most one thread in a queue_lock section, the lock is set iff there is one, queue_size = produced - consumed >= 0, and threads leave the waiter list in the order they joined it |
| Wakeup.LosesNothingIff | HW2-skeleton/synchronization.c:49-71 | for every run: no waiter is misplaced or stuck, now or in the next three statements of the running thread, iff no blocked waiter yields to nobody and none is switched out holding the internal mutex |
| Wakeup.UnfairReturns | HW2-skeleton/synchronization.c:55-56 | a blocked waiter that yields to nobody holds the queue lock three statements later, still BLOCKED and on the list |
| Wakeup.StuckForever | HW2-skeleton/synchronization.c:52-54 | a waiter switched out before it released the internal mutex stays so in every continuation, nobody joins or leaves the list, and with the queue lock held nothing is produced or consumed |
| Wakeup.AlarmStrands | HW2-skeleton/threads.c:52-54 | with any other threads about to start, a run of fair yields in which the alarm leaves the consumer so |
| Wakeup.HoldersCanRun | HW2-skeleton/synchronization.c:49-71 | under that condition whoever holds a lock is ACTIVE or running |
| Wakeup.NoLostWakeup | HW2-skeleton/synchronization.c:49-71 | with the internal mutex free, each thread between enqueue and relock is BLOCKED and on the list once or ACTIVE and absent, and nobody else is on the list |
| Wakeup.ExecCovered | HW2-skeleton/synchronization.c:60-71 | every statement keeps each queued item covered by an awake consumer or a pending signal while threads sleep |
| Wakeup.NoStrandedSleeper | HW2-skeleton/producer-consumer2.c:21-44 | with both locks free, sleepers on the list and items in the queue, at least that many consumers are ACTIVE and on their way to test the queue |
| Wakeup.EarlyReturn | HW2-skeleton/synchronization.c:55-56 | a run of a lone consumer that holds the queue lock again while BLOCKED and still on the list |
| CondVar.WokenExactly | HW2-skeleton/synchronization.c:65 | waking a queue makes exactly its threads ACTIVE |
| CondVar.SignalInProtocol | HW2-skeleton/synchronization.c:62-65 | the protocol machine's two statements have the effect of Signal |
| CondVar.Cond.Signal | HW2-skeleton/synchronization.c:60-71 | wakes the longest waiter and only it, or reports 1 when nobody waits |
| CondVar.Cond.Broadcast | HW2-skeleton/synchronization.c:73-78 | ends after one signal per waiter and one more, with an empty list and all former waiters ACTIVE |
| LinkedList.RemoveUndoesInsert | HW2-skeleton/ll_double.c:118-140 | removing a value just inserted at either end restores the sequence |
| LinkedList.WithoutKeepsOrder | HW2-skeleton/ll_double.c:118-140 | a removal keeps the order and the other elements |
| LinkedList.List.constructor | HW2-skeleton/ll_double.c:11-18 | the empty list |
| LinkedList.List.InsertHead | HW2-skeleton/ll_double.c:20-43 | prepends, or changes nothing when allocation fails; links stay mutually inverse |
| LinkedList.List.InsertTail | HW2-skeleton/ll_double.c:45-68 | appends, or changes nothing when allocation fails |
| LinkedList.List.Search | HW2-skeleton/ll_double.c:70-84 | the first node holding the data, or null |
| LinkedList.List.SearchComparison | HW2-skeleton/ll_double.c:86-100 | the first node whose comparison is 1, or null |
| LinkedList.List.SearchPredicate | HW2-skeleton/ll_double.c:102-116 | the first node satisfying the predicate, or null |
| LinkedList.List.Unlink | HW2-skeleton/ll_double.c:125-137 | takes one node out of the chain and keeps the links of the rest inverse |
| LinkedList.List.Remove | HW2-skeleton/ll_double.c:118-140 | removes the first node holding the data, or reports absence |
| LinkedList.List.RemoveHead | HW2-skeleton/ll_double.c:142-159 | removes and returns the first node |
| LinkedList.List.RemoveTail | HW2-skeleton/ll_double.c:161-178 | removes and returns the last node |
| Replies.StartFlows | HW1-skeleton/clients_common.c:100-137 | preparing a reply puts exactly header ++ file under way, with the status of the lookup |
| Replies.SendStepKeeps | HW1-skeleton/clients_statemachine.c:147-183 | a step keeps sent ++ pending ++ unread, or ends cleanly with everything sent, or ends in error; only a clean STATUS_OK end is counted |
| Replies.ReplyStream | HW1-skeleton/clients_statemachine.c:147-183 | the same for every pattern of short writes and refills |
| Replies.Completes | HW1-skeleton/clients_statemachine.c:147-183 | when every write takes something, the reply is complete within a bounded number of calls |
| Replies.EventFlush | HW1-skeleton/clients_common.c:191-207 | flushing is what the event-driven sender does until its window is empty |
| Replies.SendersAgree | HW1-skeleton/clients_common.c:139-207 | on every list of write results the blocking and the event-driven sender send the same bytes, use the same results, and succeed or fail together |
| Clients.RecvAppends | HW1-skeleton/clients_statemachine.c:115-145 | reads append in order and leave the last buffer byte free; a closed or invalid request ends the client |
| Clients.HandleKeeps | HW1-skeleton/clients_statemachine.c:100-113 | one event: before its request a client sends nothing, the request puts exactly its reply under way, afterwards sent ++ pending ++ unread stays that reply until all is sent or a write fails; the counter moves iff the client is now dead with STATUS_OK |
| Clients.WholeLife | HW1-skeleton/clients_statemachine.c:100-183 | over any events from acceptance on, a client answers the request it made, and is counted once iff it ends with STATUS_OK |
| Clients.CountedSent | HW1-skeleton/clients_statemachine.c:164-170 | a counted client has sent its header and the whole opened file |
| Clients.LifeCompletes | HW1-skeleton/clients_statemachine.c:147-183 | after its request a live client is dead within 2 * |reply| + 2 events whose writes take something; it has sent exactly header and file, and is counted if the file was opened |
| Clients.RecvTook | HW1-skeleton/clients_statemachine.c:115-145 | everything one read of a receiving client does, field by field |
| Clients.SendSent | HW1-skeleton/clients_statemachine.c:147-183 | everything one call for a sending client does, field by field, counters after an error included |
| Clients.Client.constructor | HW1-skeleton/clients_common.c:22-43 | a fresh client that receives |
| Clients.Client.FinishClient | HW1-skeleton/clients_common.c:224-228 | marks the socket dead |
| Clients.Client.SwitchState | HW1-skeleton/clients_common.c:100-137 | buffer, counters, file, state and status as specified |
| Clients.Client.ContinueReadingRequest | HW1-skeleton/clients_statemachine.c:115-145 | that effect in place, the fall-through after an invalid header included |
| Clients.Client.ContinueSendingReply | HW1-skeleton/clients_statemachine.c:147-183 | that effect in place |
| Clients.Client.ReadChunk | HW1-skeleton/clients_statemachine.c:173-181 | refills the window and closes the file after a short read |
| Clients.Client.HandleClient | HW1-skeleton/clients_statemachine.c:100-113 | a receiving client reads, a sending one writes: what is taken is appended to what was sent and moves both counters by as much; an empty window is refilled, or ends the client |
| Clients.Client.FlushBuffer | HW1-skeleton/clients_common.c:191-207 | sends a front part of the window, all of it on success, and changes nothing else |
| Clients.Client.WriteReply | HW1-skeleton/clients_common.c:139-178 | on success the whole reply is sent, the window empty and the file closed; after a failed write the client is dead with STATUS_BAD; otherwise socket and status are kept |
| Server.AliveMember | HW1-skeleton/server_statemachine.c:137 | exactly the live clients survive a sweep |
| Server.ClientList.InsertClient | HW1-skeleton/clients_statemachine.c:35-56 | puts a fresh client with an empty past in front |
| Server.ClientList.SearchClient | HW1-skeleton/clients_statemachine.c:58-72 | the first client with that socket |
| Server.ClientList.RemoveClient | HW1-skeleton/clients_statemachine.c:74-98 | removes the first client with that socket, or returns 0 |
| Server.ClientList.Sweep | HW1-skeleton/server_statemachine.c:136-137 | terminates with exactly the live clients left, in order |
| Server.ClientList.HandleReady | HW1-skeleton/server_statemachine.c:129-134 | each ready client takes exactly one step and no other client changes |
| Server.PassKeeps | HW1-skeleton/clients_statemachine.c:164-170 | a pass moves the counter by exactly the clients then dead with STATUS_OK |
| Server.PassLives | HW1-skeleton/server_statemachine.c:129-134 | after a pass every client is what its past, extended by its event, makes of it |
| Server.ClientList.Round | HW1-skeleton/server_statemachine.c:127-137 | after a round every client is what its extended past makes of it and answers the request in it, exactly the live ones remain, and the counter has moved by those dead with STATUS_OK |
| Frames.SetBitUsed | HW3-skeleton/frame.c:26-29 | sets one bit only |
| Frames.ClearBitUsed | HW3-skeleton/frame.c:31-34 | clears one bit only |
| Frames.GrantAccountedIff | HW3-skeleton/frame.c:46-54 | the counters still match the bitmap after a request iff it was for one frame |
| Frames.TwoFramesOverlap | HW3-skeleton/frame.c:46-54 | from a fresh allocator a request for two frames breaks the counters and leaves its second frame to the next request |
| Frames.GrantLeavesRestFree | HW3-skeleton/frame.c:48-50 | the later frames of a granted run are still free |
| Frames.ReleaseAccountedIff | HW3-skeleton/frame.c:63-73 | for every count an int can hold, the counters still match after a release iff nothing or one allocated frame was released |
| Frames.RunAccounted | HW3-skeleton/frame.c:18-73 | in single-frame use the counters equal the live and free frames, allocated + available = 1024, and a new frame is never a live one |
| Frames.FirstFitOne | HW3-skeleton/frame.c:40-61 | for one frame first fit is the lowest free frame |
| Frames.FrameAllocator.constructor | HW3-skeleton/frame.c:18-24 | everything free, counters 0 and 1024 |
| Frames.FrameAllocator.BitSet | HW3-skeleton/frame.c:26-29 | sets the bit in place |
| Frames.FrameAllocator.BitUnset | HW3-skeleton/frame.c:31-34 | clears the bit in place |
| Frames.FrameAllocator.GetValue | HW3-skeleton/frame.c:36-38 | 1 iff the frame is marked |
| Frames.FrameAllocator.AllocateFrame | HW3-skeleton/frame.c:40-61 | the lowest start of a free run of the requested length, or -1 exactly when there is none; marks that frame alone and moves both counters by the requested number |
| Frames.FrameAllocator.DeallocateFrame | HW3-skeleton/frame.c:63-73 | clears the first frame alone, moves both counters by the number, returns -1 |
| Frames.FrameAllocator.Execute | HW3-skeleton/frame.c:18-73 | the code executing any proper list of single-frame calls makes exactly the run of the accounting theorem |
| PageTable.IndicesDetermine | HW3-skeleton/translation.c:26-29 | the four indices determine the low 36 bits of a page number |
| PageTable.LeafFollows | HW3-skeleton/translation.c:69-84 | a page's walk visits only tables reached by its own indices |
| PageTable.GrowTree | HW3-skeleton/translation.c:31-44 | adding a zeroed table keeps the tree |
| PageTable.GrowSlot | HW3-skeleton/translation.c:31-44 | adding a zeroed table changes no page's entry |
| PageTable.SetLeafSlot | HW3-skeleton/translation.c:46-50 | writing a page's entry changes no page that differs in its low 36 bits |
| PageTable.VirtualMemory.MakeNode | HW3-skeleton/translation.c:8-12 | takes the lowest free frame, zeroes it, and touches no other frame |
| PageTable.VirtualMemory.Descend | HW3-skeleton/translation.c:31-34 | returns the table behind an entry, creating it if absent, and changes no page's entry |
| PageTable.VirtualMemory.Map | HW3-skeleton/translation.c:14-57 | adds exactly the one binding when the page is not 0 and its entry holds no address, otherwise changes nothing; takes at most four frames; is one step of the flat map |
| PageTable.VirtualMemory.Find | HW3-skeleton/translation.c:59-91 | the position of the page's entry iff it is mapped, reached through the page number's nine-bit groups, the lowest first |
| PageTable.VirtualMemory.Unmap | HW3-skeleton/translation.c:93-109 | removes exactly the one binding; is one step of the flat map |
| PageTable.VirtualMemory.Translate | HW3-skeleton/translation.c:129-140 | address * 4096 + offset for a mapped page, all ones otherwise |
| PageTable.TranslationSentinel | HW3-skeleton/translation.c:135-138 | all ones is the address of one mapped byte only, the last of all |
| PageTable.VirtualMemory.Run | HW3-skeleton/translation.c:14-109 | after any sequence of maps and unmaps the tree holds exactly the flat map of those calls, and each call returned what that map says |
| PageTable.MappedIff | HW3-skeleton/translation.c:46-50 | a page is mapped iff the last call that took effect on it was a mapping, and then to the frame of that call |
| PageTable.MappedOnce | HW3-skeleton/translation.c:47-53 | a page once mapped to a frame is refused ever after, unmapped or not |

## Left out

- `bitmap_deallocate_block` and the failure branch of growing: the block read and the block written back differ; the branch is proved unreachable from every sound file system.
- FileOps.FileSystem.Grow: is stated while the bitmap has enough unmarked bits, which every sound file system has; beyond that the source frees table indices instead of blocks.
- FileOps.FileSystem.Read: excludes ranges whose 64-bit sum wraps to a value within the size; the source then indexes far past the indirect block.
- Writing to, or reading from, an inode that was never created: not part of the file operations' promise.
- HW3-skeleton/kmalloc.c: its free-list arithmetic on raw addresses has no stable meaning to prove.
- `vm_locate`: its search dereferences absent entries.
- PageTable.VirtualMemory.MakeNode: needs a free frame; with a full bitmap the source zeroes memory before the array.
- PageTable.VirtualMemory.Map: models one page at a time, with enough free frames for the tables it lacks; in the source the page number advances by growing steps over several pages, all bound to the same frame.
- PageTable.VirtualMemory.Unmap: is stated for mapped pages only; the source dereferences an absent entry otherwise.
- `thread_create`, `thread_exit`, `thread_join`, timers and signal stacks: built on setjmp, longjmp and signals.
- CondProtocol.ProducerEffect: `queue_size` is an unbounded integer, so overflow after 2^31 unconsumed items is not modelled, and the printed lines and the pause are left out.
- Wakeup.MutualExclusion: the protocol machine is on values, one state per statement; it does not model the heap cells of the waiter list, which `LinkedList` covers on its own.
- CondVar.Cond.Lock: on a free mutex only; the spinning is part of the protocol machine.
- HW1-skeleton/ll_double.c and HW1-skeleton/thread_pool.c: the removal at the tail clears the wrong link, so the queue has no sequence to refine.
- `read_request`, header parsing, response formatting, `select`, signal handlers and the fork server: they depend on the network library, which is not part of this model; headers, lookups and write results are arbitrary inputs.
- Server.ClientList: uses a list of client records; in the source the two links are fields of the client itself.
- Clients.Client.WriteReply: the source closes the file without clearing the pointer; the model treats a closed file as absent.
