# Verified models of the data structures and their clients

This project models the hand-written data structures of the motor-control library
and the two services built on them, and proves what they promise. It covers the
lock-free multi-producer ring with the binary logger on top of it, the red-black
tree with the scheduler on top of it, the pool allocator with its intrusive free
list, the single-producer ring, and the CRC-32 routine.

`dafny verify dfyconfig.toml` checks everything.

## What is modelled, and how

**MPSC ring** (`Mpsc*.dfy`). A transition system with one step for each atomic
access of `ds/mpsc.h`: loading `wp`, storing `reserve_pos`, loading `rp`, the
compare-and-swap (which may fail spuriously), clearing the lock mark, setting
`warp_end`, unlocking, each copied byte, the push; and for the consumer loading
`wp`, looking at the flag and at the `reserve_pos` of each producer in turn, the
wrap reset, each byte read, the release. Any number of producers take these steps
in any order beside the one consumer. History variables hold every reservation
ever granted and the stream of all bytes granted; the invariant ties the offsets,
the packed word, the buffer and the program counters to them. `MpscWord.dfy` shows
that the fields of the model are what the packed word and its masks compute;
`MpscGrants.dfy` and `MpscOffers.dfy` say when a request is granted and how much a
read is offered, in positions of the run and without the arithmetic on offsets.

**Log framing** (`Log*.dfy`). `log_write_bin` and `log_flush_bin` as the only
clients of that ring: every payload is a record, the flush reads a header and then
as many bytes as it announces. `LogProgress.dfy` proves that the flush gets on: what
it hands out, when it stops, and that it waits while the output is busy.

**Red-black tree** (`Trees`, `Arenas`, `InsertFixup`, `EraseFixup`, `Unlinking`,
`Walking`, `RbTree`). The nodes are cells with left, right, parent and colour, kept
in an arena as they are in the array of tasks, and are rewritten in place by the
class `RbTree`, branch by branch as in the C code. A ghost tree, and a path that
leads from the root to the place where the code works, say what the links mean and
where the one violation is.

**Scheduler** (`SchedSpec`, `SchedRuns`, `SchedFifo`, `SchedTimes`, `Sched`). The class
`Sched` changes its tasks and the tree in place and is proved against functions on a
plain queue; the guarantees over whole runs are proved about those functions.
`SchedTimes` states when a task runs from the history of additions and runs alone.

**Pool allocator** (`Lists`, `PoolSpec`, `PoolRuns`, `PoolLives`, `Pool`). The class `ListHeap`
holds the links of `ds/list.h`, keyed by address. The class `Pool` walks them as the
C code does and is proved against functions on the sequence of blocks. Writing a
header leaves arbitrary bytes where the header lies in the buffer, so that the
contracts show what clients stored to be safe from it. The width of `usz` and the
size of the header are parameters. `PoolLives` says which blocks are free from the
calls and the pointers they returned alone.

**SPSC ring** (`Bits`, `SpscSpec`, `Spsc`, `SpscRuns`). The class `Spsc` has
counters that wrap at the width of `usz`, masks and two-part copies, and is proved
against a bounded queue of bytes. `SpscRuns` is a second model in which one writer
and one reader interleave, with the bytes of a copy going over one by one in any
order.

**CRC-32** (`CrcTable`, `Crc`, `CrcTheorems`). The table and the loop over it,
the bit-at-a-time form of section 8 of RFC 1952, and the division of polynomials
that both stand for.

## Where the code does not do what it says, and where it fails

- `list_add_tail` puts the entry before the head, although its comment says behind
  (`ds/list.h:60-66`); `Lists.ListHeap.AddTail` follows the code.
- The comment in `mp_free` speaks of later merging (`ds/mp.h:148`). Blocks are never
  merged; `PoolRuns.StaysRefused` proves what follows from that.
- `mp_alloc` computes sizes in `usz`. They are right if and only if the end of a
  block put at the tail is a value of `usz` (`PoolSpec.RequestIsExact`). A call serves the
  request and keeps the pool in order if and only if that holds or the call is refused
  anyhow (`PoolSpec.AllocIsExact`); the largest request is granted a block without payload
  (`PoolSpec.WrappedRequest`).
- `mpsc_acquire` adds the size to the offset in `usz` and masks it before it tests for
  room. `MpscWord.AcquireIsExact` gives the sizes for which every decision is right: those
  that fit the offset field, and those beyond it whose low bits are at least the capacity
  less one and which do not wrap from the last offset. For every other size some place in
  the ring grants it. `MpscWord.OversizeIsGranted` (one byte more than the field counts)
  and `MpscWord.WrappingSizeIsGranted` (a sum that wraps, which moves the write position
  back) are inputs for either side.
- `spsc_write_buf` under the overwrite policy stays inside the buffer if and only if
  offset and size together are at most twice the capacity
  (`SpscSpec.WhenCopyFits`), which a size of at most the capacity guarantees;
  `SpscSpec.OverwriteRunsOver` gives a write that does not.
- A task whose `id` is not below `SCHED_TASK_MAX` is accepted and never runs in CFS
  mode (`SchedRuns.OutOfRangeNeverRuns`).
- The test `rb_parent_color != 0` for linked tasks is right only because the node
  without a parent, the root, is black (`Scheds.Sched.LinkedTest`).

## Model

| member | source | states |
|---|---|---|
| MpscTheorems.StepKeepsInv | ds/mpsc.h:75-259 | Every atomic step of every producer and of the consumer keeps the invariant of the ring: offsets, laps, lock, reservations, bytes and program counters |
| MpscTheorems.ReachableInv | ds/mpsc.h:50-259 | The invariant holds in every state of every interleaving from the start |
| MpscTheorems.PopIsSafe | ds/mpsc.h:166-211 | The range `mpsc_pop` returns touches no reservation that is not pushed, although its scan is not atomic |
| MpscTheorems.ConsumerReadsStream | ds/mpsc.h:220-259 | The bytes given to the consumer are a prefix of the payloads of all reservations in the order in which the compare-and-swap granted them, across early and exact wraps |
| MpscTheorems.PayloadsAreStream | ds/mpsc.h:113-157 | The places that the reservations have in the stream of granted bytes follow one another without gap or overlap |
| MpscTheorems.StreamIsGranted | ds/mpsc.h:146-157 | In every run the stream grows by exactly what the winners of the compare-and-swap were called with, in the order of winning, and each reservation has the size of its payload |
| MpscTheorems.ConsumerReadsPayloads | ds/mpsc.h:220-259 | In every run from the start, what the consumer has read is a front part of those payloads joined |
| MpscTheorems.ReservationsAreDisjoint | ds/mpsc.h:226-233 | A reservation never crosses the end of the buffer, so the split copy is dead; no cell is still to be read in two reservations, the one the reader is inside included |
| MpscTheorems.PendingIsUnread | ds/mpsc.h:160-211 | A reservation that is not pushed is unread as a whole |
| MpscTheorems.LevelMeansEmpty | ds/mpsc.h:131-157 | The write offset is level with the read offset exactly when everything granted has been released, even with a stale `rp` in `mpsc_acquire` |
| MpscTheorems.Conservation | ds/mpsc.h:213-218 | What is granted is what is released plus less than a capacity |
| MpscTheorems.NoStepFails | ds/mpsc.h:198-259 | The subtraction in `mpsc_pop` never goes below zero and every copy stays in the buffer |
| MpscTheorems.RetryOnce | ds/mpsc.h:171-204 | The wrap reset of `mpsc_pop` happens at most once in a call |
| MpscWinner.NothingIntervened | ds/mpsc.h:116-146 | A compare-and-swap that succeeds on the counted word means, while fewer laps pass than the counter counts, that no reservation was granted since the load |
| MpscDrain.IdleRingDrains | ds/mpsc.h:166-211 | With every producer idle, a pop on a ring with bytes in it takes at most four steps a producer and six more, and cannot go on exactly where it has bytes |
| MpscDrain.PopReachesBytes | ds/mpsc.h:166-211 | And it does get there |
| MpscDrain.StepKeepsLock | ds/mpsc.h:75-88 | A locked word is always held by a producer on its way to unlock it |
| MpscGrants.GivesUpWithoutPlace | ds/mpsc.h:130-146 | In every reachable state, a producer that finds the word unchanged gives up exactly if, for the `rp` it loaded, there was no place: at the write position within the lap, or at the start of the next lap, ending less than a capacity past the reader |
| MpscGrants.GivesUpExactlyWhenFull | ds/mpsc.h:130-146 | With `rp` still as loaded it gives up exactly if there is no such place now |
| MpscGrants.GrantedAtPlace | ds/mpsc.h:137-157 | What is granted lies at that place and has the size asked for |
| MpscGrants.PackedDecisionIsPlace | ds/mpsc.h:123-145 | On packed words, in the arithmetic of `usz`, a decidable size is granted exactly if there is such a place |
| MpscOffers.PopOffersAll | ds/mpsc.h:166-211 | A pop that runs while the producers stand still, at whatever step, offers everything up to the end of the lap or up to the offset where a registered producer is at work, and nothing only if that is at the read position; a read takes all it wants of that, or nothing |
| MpscWord.FieldsComeBack | ds/mpsc.h:83-144 | The masks take the packed word apart, and the increment counts modulo the range of the counter alone |
| MpscWord.PackIsInjective | ds/mpsc.h:146 | Packed words are equal exactly if lock, counter and offset are |
| MpscWord.PackedTargetIsTarget | ds/mpsc.h:123-145 | The word that `mpsc_acquire` tries to store, computed with masks in `usz`, is the one the model stores, refusals included, for every decidable size; when that is a refusal is `MpscGrants.GivesUpWithoutPlace` |
| MpscWord.AcquireIsExact | ds/mpsc.h:130-146 | In `usz`, all decisions of `mpsc_acquire` on a size are those of unbounded arithmetic, and what it grants fits the buffer, exactly under a stated condition on size, capacity and word; what those decisions are is `MpscGrants.PackedDecisionIsPlace` |
| MpscWord.UndecidableIsGranted | ds/mpsc.h:130-146 | For every other size, a place in the ring where it is granted |
| MpscWord.OversizeIsGranted | ds/mpsc.h:138-143 | One byte more than the offset field counts is granted as one byte |
| MpscWord.WrappingSizeIsGranted | ds/mpsc.h:130-145 | A sum that wraps is granted and moves the write position back |
| LogModel.DecodeEncode | log/log.h:88-106 | A header is read back as it was written |
| LogModel.WrittenIsRecord | log/log.h:88-107 | What `log_write_bin` copies is a header that announces the length of the rest, and the rest |
| LogTheorems.LogStepKeeps | log/log.h:83-129 | Every step of writers and flush keeps the framing invariant |
| LogTheorems.FlushedInOrder | log/log.h:113-129 | What has been flushed is the records of the first reservations, in order, each once and whole; that they are flushed is `LogProgress` |
| LogTheorems.BodyFollowsHeader | log/log.h:118-127 | Once a header is read, the next read returns exactly the announced bytes, those the writer copied in |
| LogProgress.FlushIsNotBusy | log/log.h:117 | In every run from a start that is not busy, the flush reads only while the output is not busy |
| LogProgress.OneRecordATime | log/log.h:117-128 | In asynchronous mode at most one record goes out, and one more each time the output is said to be complete |
| LogProgress.FlushHandsOut | log/log.h:113-129 | After every run: with the writers idle, a flush that is not busy hands out exactly the next record, and in synchronous mode goes on |
| LogProgress.SyncFlushEndsEmpty | log/log.h:113-129 | In synchronous mode, with the writers idle, such a flush has ended only when every record is out |
| LogProgress.SyncFlushEmpties | log/log.h:113-129 | And it can always get there |
| Trees.RedBlackPlug | ds/rbtree.h:183-308 | A tree is red-black exactly if the part below a place and the path to it are, with matching heights and colours |
| Trees.HeightBound | ds/rbtree.h:379-388 | The height of a red-black tree of n nodes is at most 2*log2(n+1) |
| InsertFixup.InsertDepthBound | ds/rbtree.h:183-237 | The depth at which a node is linked, which bounds the insert fix-up, obeys the same bound |
| InsertFixup.Climb | ds/rbtree.h:196-204 | Recolouring under a red uncle moves the only possible violation up by two and changes no order |
| InsertFixup.Settle | ds/rbtree.h:206-214 | The rotation under a black uncle ends with a red-black tree |
| EraseFixup.RedSibling | ds/rbtree.h:246-253 | Turning a red sibling up keeps the missing black in one place, now under a red parent |
| EraseFixup.BlackNephews | ds/rbtree.h:254-259 | Reddening the sibling moves the missing black to the parent |
| EraseFixup.RedNear | ds/rbtree.h:261-267 | Raising a red near nephew keeps everything and makes the far one red |
| EraseFixup.RedFar | ds/rbtree.h:268-274 | With a red far nephew the last rotation puts the missing black back |
| RbTrees.RbTree.LinkNode | ds/rbtree.h:129-135 | The node becomes a red leaf at the given link, and no other cell changes |
| RbTrees.RbTree.RotateLeft | ds/rbtree.h:137-158 | Exactly the left rotation at the node, with all links back to parents and the root pointer |
| RbTrees.RbTree.RotateRight | ds/rbtree.h:160-181 | Exactly the right rotation at the node, with all links back to parents and the root pointer |
| RbTrees.RotatedLeftKeeps | ds/rbtree.h:137-158 | A left rotation keeps the in-order sequence and the nodes |
| RbTrees.RotatedRightKeeps | ds/rbtree.h:160-181 | A right rotation keeps the in-order sequence and the nodes |
| RbTrees.RbTree.InsertColor | ds/rbtree.h:183-237 | From any tree with at most the violation of a fresh red node to a red-black tree with the same in-order sequence; the rounds are at most half the depth |
| RbTrees.RbTree.EraseTurnLeft | ds/rbtree.h:244-275 | One round for a hole on the left: done, or the hole is the parent, with the measure of colour and depth smaller |
| RbTrees.RbTree.EraseTurnRight | ds/rbtree.h:276-304 | One round for a hole on the right, likewise |
| RbTrees.RbTree.EraseColor | ds/rbtree.h:239-308 | From a tree that lacks one black at a place to a red-black tree with the same in-order sequence, in at most depth + 1 rounds |
| RbTrees.RbTree.ReplaceBySuccessor | ds/rbtree.h:322-357 | The in-order successor, adjacent or deep, takes the place and colour of a node with two children |
| RbTrees.RbTree.Erase | ds/rbtree.h:310-377 | For every node of every red-black tree: a red-black tree with right links whose in-order sequence lacks exactly that node; the fix-up takes at most 2*log2(n+1) rounds |
| Unlinking.SuccessorContents | ds/rbtree.h:322-357 | Moving the successor up removes exactly the node from the in-order sequence |
| RbTrees.RbTree.First | ds/rbtree.h:379-388 | The first node of the in-order sequence, or none if it is empty, in at most 2*log2(n+1) steps |
| RbTrees.RbTree.Last | ds/rbtree.h:390-399 | The last node of the in-order sequence, or none |
| RbTrees.RbTree.Next | ds/rbtree.h:401-417 | The node behind in the in-order sequence, or none at the end: from the first node on, each node is met once |
| RbTrees.RbTree.Prev | ds/rbtree.h:419-435 | The node before in the in-order sequence, or none at the start, which undoes `rb_next` |
| Walking.RankOf | ds/rbtree.h:401-435 | Where a node stands in the in-order sequence follows from its left subtree and its path |
| SchedSpec.EnqueuedKeeps | sched/sched.h:144-164 | Inserting keeps the queue sorted by time and priority, without repeats |
| SchedSpec.AddKeepsInv | sched/sched.h:207-223 | `sched_add_task` keeps: the queue holds exactly the live tasks, sorted, none due before its delay is over |
| SchedSpec.ExecKeepsInv | sched/sched.h:254-289 | `sched_exec` keeps the same |
| SchedFifo.TiesAreFifo | sched/sched.h:130-176 | In every run, waiting tasks with equal keys stand in the order in which they were last put in, and every waiting task, its key included, is what it was then |
| SchedFifo.KeysStay | sched/sched.h:254-289 | An event changes a waiting task only by running it from the head, out of the tree |
| SchedTimes.RunsExactlyWhenDue | sched/sched.h:259-282 | In every run, in both modes: a call runs the chosen task exactly if it has a callback and is due by the history: a period after its last run ended, at first its delay after it was added; it fails exactly if there is no such task or callback |
| SchedTimes.PeriodBetweenRuns | sched/sched.h:276-282 | In every run, no run of a task begins less than its period after an earlier one ended |
| SchedTimes.EarliestDueRuns | sched/sched.h:130-142 | In CFS mode no live task is due before the one that runs, and none that is due at the same time has a smaller priority number |
| SchedRuns.EarlierStays | sched/sched.h:156-161 | What is not later than a new task keeps its place |
| SchedRuns.EarliestRuns | sched/sched.h:178-188 | The task that runs is no later than any that waits |
| SchedRuns.IdleMeansNothingDue | sched/sched.h:259-269 | In CFS mode a call returns success without a callback exactly when something waits, the head can run, and nothing that waits is due |
| SchedRuns.BoundedWaiting | sched/sched.h:144-289 | A due task at position p of the queue is run by the (p+1)-th further call |
| SchedRuns.ExecCntIsRunCount | sched/sched.h:278 | The counter of a task is the number of its runs |
| SchedRuns.CappedTasks | sched/sched.h:281-286 | A capped task runs at most that often and is dead exactly when it has |
| SchedRuns.DeadStaysDead | sched/sched.h:281-286 | A dead task stays as it is and is never chosen or run again |
| SchedRuns.OutOfRangeNeverRuns | sched/sched.h:153-154 | In CFS mode a task with an id out of range never waits and never runs |
| SchedRuns.RoundRobin | sched/sched.h:190-205 | In FCFS mode a running task that stands e places ahead is chosen by one of the next e + 1 calls |
| SchedRuns.FcfsIsFair | sched/sched.h:190-205 | In FCFS mode every running task is chosen within as many calls as there are tasks |
| Scheds.Sched.LinkedTest | sched/sched.h:166-176 | The word is nonzero exactly for the tasks in the tree, in every state |
| Scheds.Sched.CfsInsertTask | sched/sched.h:144-164 | The descent and the fix-up put the task into the in-order sequence where the queue has it, in at most log2(n+1) rounds |
| Scheds.Sched.CfsRemoveTask | sched/sched.h:166-176 | The task leaves the in-order sequence and its node is zeroed |
| Scheds.Sched.CfsGetTask | sched/sched.h:178-188 | The head of the queue or none |
| Scheds.Sched.FcfsGetTask | sched/sched.h:190-205 | The next running task of the round, or none |
| Scheds.Sched.AddTask | sched/sched.h:207-223 | The new state is that of the function on the queue, in both modes |
| Scheds.Sched.Exec | sched/sched.h:254-289 | The new state and the result are those of the function on the queue, in both modes and every error case; when that function runs a task again is `SchedTimes.RunsExactlyWhenDue` |
| Lists.ListHeap.AddBetween | ds/list.h:149-156 | The entry stands between the two neighbours of the ring; other nodes keep their links |
| Lists.ListHeap.Add | ds/list.h:158-162 | The entry stands behind the head |
| Lists.ListHeap.AddTail | ds/list.h:164-168 | The entry stands before the head, at the end of the list |
| Lists.ListHeap.Delete | ds/list.h:170-183 | The ring closes without the entry, whose links are null |
| Lists.ListHeap.Replace | ds/list.h:212-219 | The new entry stands where the old one did, also in a ring of one |
| Lists.ListHeap.ReplaceInit | ds/list.h:221-226 | As before, and the old entry is a ring of its own |
| Lists.ListHeap.Splice | ds/list.h:191-210 | All nodes of a list, in order, stand behind the head of another, whose nodes follow |
| Lists.ListHeap.Move | ds/list.h:228-233 | The entry moves behind the head, on its own list or from another, the others keep their order |
| Lists.ListHeap.MoveTail | ds/list.h:235-240 | The entry moves to the end, on its own list or from another, the others keep their order |
| Lists.ListHeap.Empty | ds/list.h:185-189 | True exactly for a ring of the head alone |
| Lists.NeighboursUndo | ds/list.h:142-183 | On a ring, going on and back from any node ends at it |
| Lists.RingIsUnique | ds/list.h:142-183 | The links allow one ring from a node only |
| Lists.OtherRingKept | ds/list.h:149-240 | Rewiring one list leaves every list with other nodes as it was |
| PoolSpec.RequestIsExact | ds/mp.h:77-113 | Machine sizes agree with unbounded ones exactly when the end of a block at the tail is a value of `usz` |
| PoolSpec.WrappedRequest | ds/mp.h:77-116 | The largest request is granted a bare header |
| PoolSpec.BlocksAreDisjoint | ds/mp.h:74-156 | No two blocks share a byte, and all lie in the used part of the buffer |
| PoolSpec.AllocIsExact | ds/mp.h:77-124 | A call keeps the pool in order and serves the request exactly if the request is representable or refused anyhow |
| PoolSpec.AllocPicks | ds/mp.h:77-116 | The block granted is the lowest-addressed free one that is large enough, with less than a header and an alignment unit to spare; the tail is the last resort; null comes back exactly when neither has room |
| PoolSpec.CutLeavesRoom | ds/mp.h:89-105 | A block is cut only where the rest has room for a header and an alignment unit; no other free block is new |
| PoolSpec.AllocKeepsInv | ds/mp.h:74-124 | An allocation keeps the blocks tiling the used part, aligned |
| PoolSpec.FreeKeepsInv | ds/mp.h:137-156 | So does a free |
| PoolRuns.RunKeepsInv | ds/mp.h:68-165 | The blocks tile the used part after every history of allocations, frees and resets |
| PoolRuns.Conservation | ds/mp.h:68-165 | Bytes handed out and bytes free add up to the bytes taken from the tail |
| PoolLives.HeldAreLive | ds/mp.h:74-165 | Over every history, exactly those pointers are live that an allocation returned and that were neither freed nor reset since |
| PoolLives.OtherBlocksAreFree | ds/mp.h:137-156 | Over every history, every block whose pointer is not among those is free: none is lost |
| PoolRuns.LivePointersApart | ds/mp.h:74-156 | Live allocations are aligned, inside the buffer, and at least a header apart |
| PoolRuns.FreshPointer | ds/mp.h:74-124 | An allocation hands out a pointer that was not live |
| PoolRuns.LiveStays | ds/mp.h:74-156 | A live pointer keeps its room under every other operation |
| PoolRuns.FreedCanBeReused | ds/mp.h:81-110 | What was allocated, held through any history and freed can be allocated again |
| PoolRuns.StaysRefused | ds/mp.h:137-156 | Blocks never merge: once no block is large enough and the tail too short, a request is refused until a reset |
| Pools.Pool.Alloc | ds/mp.h:74-124 | The new blocks, free list, sizes and result are those of the function on blocks; only header bytes change |
| Pools.Pool.Calloc | ds/mp.h:126-135 | As before, with exactly the bytes asked for zeroed, none of them in a header |
| Pools.Pool.Free | ds/mp.h:137-156 | The block is free and on the list in its place, all other blocks are as they were (`PoolLives.OtherBlocksAreFree` over histories); null is let through |
| Pools.Pool.Reset | ds/mp.h:158-165 | No blocks and an empty list |
| Pools.Pool.InsertByAddress | ds/mp.h:148-153 | The walk finds the place that keeps the list in the order of addresses |
| Pools.Pool.FindFit | ds/mp.h:83-87 | The walk stops at the first block that is large enough |
| Pools.FreeListIsExact | ds/mp.h:83-156 | The free list holds exactly the free blocks |
| Pools.FreeAddrsAscend | ds/mp.h:148-153 | The free list is strictly ordered by address |
| Pools.PayloadSurvives | ds/mp.h:74-156 | What a client stored in a live allocation survives calls that write headers only |
| Bits.PowerTest | util/mathdef.h:314 | The test admits exactly the powers of two |
| Bits.MaskedCounter | ds/spsc.h:141-142 | Masking a wrapped counter gives the position of the unbounded one |
| Bits.WrappedDistance | ds/spsc.h:85-89 | The wrapped difference of the counters is the distance of the unbounded ones |
| SpscSpec.WrittenLaws | ds/spsc.h:97-117 | Truncate keeps a front part, reject is all or nothing, overwrite keeps the last `cap` bytes; nothing is lost while there is room |
| SpscSpec.WhenCopyFits | ds/spsc.h:143-145 | The two-part copy stays in the buffer exactly if offset and size are at most twice the capacity |
| SpscSpec.OverwriteRunsOver | ds/spsc.h:109-145 | An overwrite that leaves the buffer |
| SpscSpec.SplicedStores | ds/spsc.h:141-145 | The two-part copy appends to the queue and gives up the oldest bytes only |
| SpscSpec.FrontOfQueue | ds/spsc.h:163-167 | The two parts copied out are the front of the queue |
| SpscSpec.FirstInFirstOut | ds/spsc.h:97-171 | Over every history without overwriting, what was accepted comes out in order, each byte once, and the rest is still there |
| SpscSpec.OverwriteKeepsLatest | ds/spsc.h:97-171 | Over every history with overwriting, the queue is what was written last, as much as fits unless something was read |
| Spscs.Spsc.RoomIsExact | ds/spsc.h:131-145 | The guard of an overwrite holds exactly if the copy of what the policy lets through stays in the buffer |
| Spscs.Spsc.Init | ds/spsc.h:53-64 | An empty queue, or a refusal without effect, exactly for capacities that are no power of two |
| Spscs.Spsc.ApplyPolicy | ds/spsc.h:97-117 | How much is written, and how far an overwrite moves the read counter |
| Spscs.Spsc.Write | ds/spsc.h:131-149 | The queue and the count under all three policies, however the counters have wrapped |
| Spscs.Spsc.Read | ds/spsc.h:151-171 | As many bytes as are there come from the front, the rest of the target stays |
| Spscs.Spsc.Avail | ds/spsc.h:85-89 | The length of the queue |
| Spscs.Spsc.FreeSpace | ds/spsc.h:91-95 | The room left |
| SpscRuns.StepKeepsInv | ds/spsc.h:131-171 | Every step of writer and reader, down to the single byte, keeps the invariant |
| SpscRuns.ReadIsPrefixOfWritten | ds/spsc.h:131-171 | In every interleaving the bytes read are a front part of the bytes written |
| SpscRuns.RegionsNeverOverlap | ds/spsc.h:141-167 | No byte of the buffer is in both copies at once |
| SpscRuns.NoStepFails | ds/spsc.h:131-171 | Each side can always go on, inside the buffer |
| SpscRuns.WriteGoesAhead | ds/spsc.h:97-117 | A write begins exactly if all its bytes fit, or some do and the policy is to truncate |
| SpscRuns.ReadGoesAhead | ds/spsc.h:151-160 | A read begins exactly if it wants a byte and there is one |
| SpscRuns.PublishedIsOffered | ds/spsc.h:97-149 | In every interleaving, what is published or being copied in is the joined data of the writes: all of each under reject, the front part that had room under truncate |
| SpscRuns.ReleasedIsAsked | ds/spsc.h:151-171 | In every interleaving, as many bytes are released or being copied out as the reads asked for, or as were there |
| CrcTable.EntryIsEightSteps | crypto/crc.h:8-35 | Every one of the 256 entries is eight steps of the bit form |
| Crc.TableStep | crypto/crc.h:42 | One table step is eight bit steps, by linearity |
| Crc.Crc32 | crypto/crc.h:37-44 | The loop returns the bit-at-a-time CRC of every byte string, which `CrcTheorems.CrcIsRemainder` characterises |
| Crc.BytesAreBits | crypto/crc.h:41-42 | Going byte by byte comes to the same as going bit by bit |
| CrcTheorems.RegisterIsRemainder | crypto/crc.h:37-44 | Message and register differ by a multiple of the generator polynomial, and the register has a lower degree |
| CrcTheorems.GeneratorIsPoly | crypto/crc.h:8-35 | The constant of the bit form is the generator of RFC 1952, coefficient by coefficient |
| CrcTheorems.DivisionIsUnique | crypto/crc.h:37-44 | A message has one quotient and one remainder of degree below 32 |
| CrcTheorems.CrcIsRemainder | crypto/crc.h:37-44 | A value is the result exactly if its complement is the remainder of the message, raised by 32 and with its first 32 bits complemented, divided by the generator |
| CrcTheorems.LeadingZeroIsNoticed | crypto/crc.h:40-43 | A zero byte in front changes the checksum, also that of zeros only |
| CrcTheorems.BurstIsNoticed | crypto/crc.h:37-44 | Messages that differ, but only within four neighbouring bytes, have different checksums |
| CrcTheorems.FiveBytesCanCollide | crypto/crc.h:37-44 | With five bytes that is no longer so |

## Left out

- Weak memory orders: atomic accesses are taken to be sequentially consistent.
- Progress of the spin loops in `mpsc_get_wp` and `mpsc_get_reserve_pos`, and of the spin lock of the pool: a step that would spin is not enabled.
- MpscOffers.PopOffersAll: is about a pop during which no producer takes a step, because what a scan finds while they do depends on every step between; that what it offers then is safe is `MpscTheorems.PopIsSafe`.
- LogProgress.FlushHandsOut: is about a flush during which no writer is in a call; one that has not pushed holds every later record back.
- The MPSC ring is a transition system on values, not a class, because its calls interleave; its `reserve_pos` field is a datatype of free, claiming and claimed instead of a number with a marker bit.
- MpscWord.PackedTargetIsTarget: holds for the sizes of `MpscWord.Decidable`; `MpscWord.AcquireIsExact` shows it false for every other.
- The wrap counter of the MPSC word wraps; fewer laps than it counts are taken to pass during one attempt to reserve.
- In the transition system, requests to `mpsc_acquire` of size 0 or of a size beyond the offset field, and calls by producers that are not registered; `MpscWord` decides the sizes.
- `mpsc_init`, `mp_init` and the scheduler expect zeroed structures; the models start from them.
- `entry.size` is at most `flush_cap` in the log; `f_get_ts` and the flush callback are parameters of the steps.
- `log_write`, `log_flush` and the level wrappers: text formatting.
- `sched_thread_init` and calls of the scheduler from several threads.
- `sched_hz2tick`: its result is the `period` of a task; the rounding of `elapsed_us` to single precision; overflow of time stamps.
- `sched_add_task` beyond `SCHED_TASK_MAX`: the array of tasks is a sequence that grows up to that many.
- The states SLEEPING and STOPPED, which nothing sets.
- Callbacks of tasks leave the scheduler alone.
- `mp_free` of a pointer that is not live, and clients that write outside their allocation.
- Pools.Pool.Alloc: requires the condition of `PoolSpec.AllocIsExact`, because any other request is granted what it did not ask for; `Pools.Pool.Calloc` likewise.
- Spscs.Spsc.Write: requires the condition of `Spscs.Spsc.RoomIsExact`, because otherwise the copy leaves the buffer.
- The SPSC overwrite policy with a reader at work, where the writer moves the counter of the reader.
- `shm`, `comm`, `driver`, the control, observer, filter, waveform and transform code: input and output, and floating point.
