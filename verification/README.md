# FEMU: verified models of its stateful algorithms

FEMU emulates NVMe SSDs in software. This project models the parts of it in which most of the
difficulty sits and proves what they are for:

* **the black-box flash translation layer** (`femu/bbssd/ftl.c`): page maps, page, block and line
  counters, the striped write pointer, free, full and victim lines, greedy garbage collection;
* **the indexed binary heap** (`femu/lib/pqueue.c`) that picks victims and orders completions;
* **the lock-free ring** (`femu/inc/rte_ring.h`, `femu/lib/rte_ring.c`) between the threads;
* **the zoned namespace** (`femu/zns/zns.c`, `femu/zns/zns.h`): zone states, their queues, the
  open and active resources, writes, bulk operations, reports;
* **completion** (`femu/nvme-io.c`): expiry order, the phase tag of completion queues;
* **data transfer** (`femu/dma.c`, `femu/backend/dram.c`): PRP lists, scatter and gather;
* **bitmaps** (`qemu-compat/bitmap.c`, `qemu-compat/bitops.c`) on 64-bit words.

`dafny verify dfyconfig.toml` checks everything.

## How it is organised

| files | content |
|---|---|
| `Wrappers`, `Arithmetic`, `Queues` | options, products and quotients, tail queues as sequences |
| `PQueue` | the heap over arrays |
| `Geometry`, `FtlState` | addresses; the FTL as a value, one function per C function |
| `FtlInvariant`, `FtlSteps`, `FtlGcModel`, `FtlGc`, `FtlRunModel`, `FtlRuns`, `FtlHistory`, `FtlBackground`, `NandDiscipline` | its invariant, each operation, collections, whole runs, what runs map and reclaim in numbers, the order in which runs program and erase pages |
| `NandArray`, `LineManager`, `Ftl` | the FTL in memory, proved to do what the functions say |
| `RingModel`, `RingProofs`, `RingRuns`, `RingCalls`, `RingCases`, `RingCopy`, `RingSetup` | the ring as a transition system, its invariant, runs, what calls return, runs with a head loaded long ago, copy macros, creation |
| `ZnsModel`, `ZnsInvariant`, `ZnsCommands`, `ZnsBulk`, `ZnsWrites`, `ZnsLog`, `ZnsReads`, `ZnsAccepts`, `ZnsOrders`, `ZonedNamespace`, `ZnsData` | zones as a value, resources, commands, bulk results, the effect of writes, what has been written, reads and reports, the exact answer to each command, the order of queues, the namespace in memory, and the bytes in its backend |
| `CompletionQueue`, `Completions`, `Prp`, `Backend` | phase tag, expiry loop, PRP walk, copying |
| `NatBits`, `Bits`, `Bitmaps`, `BitSearch`, `BitCopy` | bit operations on numbers, bits of words, stretches, searches, unaligned copies |

The flash translation layer and the zoned namespace exist twice: as functions on values, about
which runs and invariants are proved, and as classes over arrays and fields whose methods follow
the C code and are proved to compute those functions. Every `ftl_assert` of `ftl.c` (compiled to
nothing by default) and every assertion of `zns.h` and `zns.c` on the modelled paths is an `assert`
in those methods.

Three ideas carry the harder proofs:

* *Room.* The number of blank pages of an FTL is a function of the number of free lines and the
  write pointer. A programmed page costs exactly one, a collection gains exactly the victim's
  invalid pages, and the `abort()` for want of a free line is reached exactly when the last one is
  used. Everything about space follows from that count.
* *Unbounded counters beside 32-bit indices.* Steps of the ring look only at the 32-bit fields; the
  counters are history. Nothing is assumed about timing: the protocol invariant holds throughout a
  run if and only if each head that is moved has room for the objects at that moment
  (`RingRuns.RunKeepsInv`), and that is so whenever the head and its limit stay within 2^32 of the
  head that a sleeping call has loaded. `RingCases` has runs in which they do not: the same
  mistaken compare-and-set overfills the ring in one (`WrappedHeadOverfills`) and does no harm in
  the other (`WrappedHeadFits`).
* *Targets.* A bulk operation on zones is shown to turn each zone into what a function of that zone
  alone says, whatever it does to the queues it walks along.

Where the code differs from its documentation, the model follows the code:

* `rte_ring.h` says that `free_entries` is always between 0 and the capacity, and `entries` between
  0 and the size less one. `RingRuns.StaleCount` says for which loaded heads that holds;
  `RingCases.StaleAmount` and `RingCases.StaleEntries` are runs in which it does not. Only the
  compare-and-set makes it harmless.
* It also says that the overflow of the indexes is no problem. It is none exactly under the condition
  above; and after 2^32 - 1 objects a producer can be refused on an empty ring
  (`RingCases.WrappedCountRefuses`).
* A size of 0 passes for a power of two when a ring is created (`RingSetup.CreateIsUsable`).
* `zns_zone_append` does not set `is_write` of its request structure, which tells `backend_rw` the
  direction. An append in a structure whose last read or write was not a write, or that is used
  for the first time, reports success and moves the write pointer, but copies from the backend into
  host memory and stores nothing (`ZnsLog.FirstAppendStoresNothing`, `ZnsLog.FlagIsLastWrite`).
* A zone append is checked against the boundary from the start of the zone, not from its write
  pointer, and may overrun the zone (`ZnsWrites.AppendOverruns`); a write whose data cannot be mapped
  leaves the two write pointers apart (`ZnsWrites.FailedMapDiverges`). `ZnsLog.StepKeepsLogged` says
  exactly which commands keep the sequential-write guarantee.
* The counting loop of a zone report leaves the zone array if the namespace is not a multiple of the
  zone size, depending on where it starts and whether a partial report fills up first
  (`ZnsReads.CountMatches`, `ZnsReads.OddCapacityOverruns`).
* `ssd_write` only prints an error for a request past `tt_pgs` and then indexes out of its map;
  `Ftls.Ftl.Write` reports that as an outcome of its own, and `FtlHistory.BothEndsReached` has the run.
* `nvme_post_cqe` does not check for a full queue; `CompletionQueues.OverrunOutcome` says what a host
  then sees, and `CompletionQueues.Overruns` has the runs.
* `nvme_map_prp` takes entry number `max_prp_ents` of a PRP list for the pointer to its next page. Section
  4.3 of NVM Express 1.4 has it in the last entry of the page of memory; `Prps.ListIsStandard` says
  exactly when that is the same.

## Model

| member | source | states |
|---|---|---|
| Geometries.Geometry.PgIdxInRange | femu/bbssd/ftl.c:28-42 | the linear page index of a valid address is below `tt_pgs` (its assertion) and determines the address |
| Geometries.Geometry.PgIdxSurjective | femu/bbssd/ftl.c:28-42 | every index below `tt_pgs` is the index of a valid address, so `ppa2pgidx` is onto |
| Geometries.Geometry.PgIdxInjective | femu/bbssd/ftl.c:28-42 | two valid addresses with the same index are equal, so no two pages share a reverse-map entry |
| Geometries.Geometry.StripeInRange | femu/bbssd/ftl.c:157-209 | the position of a page in the write order lies within its line and determines the page |
| Geometries.Geometry.StripeSurjective | femu/bbssd/ftl.c:157-209 | every position of a line belongs to a page of the line: the write pointer misses none |
| Geometries.Geometry.StripeIncreasesInBlock | femu/bbssd/ftl.c:157-209 | the write order goes through the pages of each block in increasing order |
| PQueues.RootIsMinimum | femu/lib/pqueue.c:172-193 | in an ordered heap the root is a global minimum |
| PQueues.IsValidIffHeapOrdered | femu/lib/pqueue.c:239-261 | `pqueue_is_valid` accepts exactly the heap-ordered arrays |
| PQueues.UpStep | femu/lib/pqueue.c:74-88 | one round of the sift-up loop moves the only violation one level up |
| PQueues.DownStep | femu/lib/pqueue.c:105-119 | one round of the sift-down loop, taking the smaller child, moves the only violation one level down |
| PQueues.PQueue.BubbleUp | femu/lib/pqueue.c:74-88 | the moving-hole loop restores order, keeps the elements and every element's back-pointer |
| PQueues.PQueue.PercolateDown | femu/lib/pqueue.c:105-119 | the moving-hole loop restores order, keeps the elements and every element's back-pointer |
| PQueues.PQueue.Insert | femu/lib/pqueue.c:122-144 | adds exactly one element, growing the array if needed; order and back-pointers hold |
| PQueues.PQueue.ChangePriority | femu/lib/pqueue.c:147-157 | changes one priority and keeps the elements; order and back-pointers hold |
| PQueues.PQueue.Remove | femu/lib/pqueue.c:160-169 | removes exactly the element at the given back-pointer; order and back-pointers hold |
| PQueues.PQueue.Peek | femu/lib/pqueue.c:186-193 | finds an element of least priority, or that there is none |
| PQueues.PQueue.Pop | femu/lib/pqueue.c:172-183 | removes an element of least priority and keeps the others |
| FtlInvariants.LineOccupancy | femu/bbssd/ftl.c:528-615 | free, invalid and valid pages make up a line, whatever their order |
| FtlInvariants.OpenLineCount | femu/bbssd/ftl.c:157-209 | valid and invalid pages of the open line are as many as the write pointer has passed |
| FtlSteps.AdvanceKeepsInvariant | femu/bbssd/ftl.c:157-209 | advancing the write pointer keeps the invariant, costs one page of room and aborts exactly when only one was left; the used-up line becomes full or a victim |
| FtlSteps.PlaceKeepsInvariant | femu/bbssd/ftl.c:575-595 | mapping a logical page to the page under the write pointer and programming it keeps counters, lines and both maps consistent |
| FtlSteps.DropThenPlace | femu/bbssd/ftl.c:528-573 | when the old copy of a page dies, counters and line lists stay right and only its own map entries are stale |
| FtlSteps.WritePageKeepsInvariant | femu/bbssd/ftl.c:829-856 | one iteration of the write loop keeps the whole invariant, including that the maps are mutual inverses; it costs one page of room and aborts exactly when one was left |
| FtlGc.MoveIsSound | femu/bbssd/ftl.c:630-666 | copying a live page out of the victim keeps the weaker invariant that holds during a collection; the reverse map names its logical page; it aborts exactly when one page of room was left |
| FtlGc.CopyPagesProgress | femu/bbssd/ftl.c:691-711 | the loop over a block moves every live page exactly once and aborts exactly when there is no more room than live pages |
| FtlGc.CleanBlocksProgress | femu/bbssd/ftl.c:744-763 | the channel and LUN loops cost one page of room per live page of the line; erased blocks are blank, other lines are only programmed |
| FtlGc.CollectKeepsInvariant | femu/bbssd/ftl.c:724-768 | a collection restores the full invariant, relocates only pages of the victim, unmaps none, gains exactly its invalid pages as room, and aborts exactly when there is no more room than it has live pages |
| FtlGc.VictimCounters | femu/bbssd/ftl.c:668-689 | a victim's counters count its pages and at least one is invalid |
| FtlRuns.InitHolds | femu/bbssd/ftl.c:84-134 | a new device satisfies the invariant, is all room and maps nothing |
| FtlRuns.RoomIsFreePages | femu/bbssd/ftl.c:157-209 | room is the number of blank pages on the device |
| FtlRuns.MappedIsLive | femu/bbssd/ftl.c:829-856 | as many logical pages are mapped as pages are valid |
| FtlRuns.LinesAddUp | femu/bbssd/ftl.c:84-155 | free, full and victim lines and the open line are all the lines |
| FtlRuns.ProgramOrder | femu/bbssd/ftl.c:575-615 | NAND discipline: in the block under the write pointer exactly the pages below it have been programmed since the last erase |
| FtlRuns.CollectionKeepsFreeLines | femu/bbssd/ftl.c:724-768 | a collection never lowers the number of free lines and raises it by at most one |
| FtlRuns.ForcedLoopRuns | femu/bbssd/ftl.c:822-827 | with a line's worth of room no collection of the forced loop aborts; each adds room and removes invalid pages, which bounds their number |
| FtlRuns.ForcedLoopReachesGoal | femu/bbssd/ftl.c:822-827 | on a provisioned device the loop ends with more than `gc_thres_lines_high` free lines, never for want of victims |
| FtlRuns.WritePagesKeepInvariant | femu/bbssd/ftl.c:829-856 | the write loop maps exactly the pages written, leaves other map entries alone, and aborts exactly when there is no more room than pages |
| FtlRuns.StepIsSteady | femu/bbssd/ftl.c:861-921 | serving a request and the background collection after it succeed and keep a device steady |
| FtlRuns.RunFromInitIsSafe | femu/bbssd/ftl.c:806-921 | space safety of whole runs: no sequence of admissible requests with forced and background collections, whatever victims are picked among equals, reaches the `abort()` at line 196 |
| FtlHistory.StepKeepsInvariant | femu/bbssd/ftl.c:884-916 | on any device, a round of the FTL thread keeps the invariant unless it aborts or its request reaches past `tt_pgs` |
| FtlHistory.RunKeepsInvariant | femu/bbssd/ftl.c:806-921 | every run on any device keeps the invariant, so the two page maps stay mutual inverses and no assertion fails, unless it aborts for want of a free line or a request reaches past `tt_pgs`; it maps exactly the pages written |
| FtlHistory.BothEndsReached | femu/bbssd/ftl.c:806-858 | on every new device a first write just past the last page leaves the map, and a first write of all pages ends in the `abort()` |
| FtlHistory.LpnsBySectors | femu/bbssd/ftl.c:806-831 | a write maps exactly the logical pages in which one of its sectors lies, whatever its alignment |
| FtlHistory.RangeBySectors | femu/bbssd/ftl.c:812-818 | a request is in range exactly if its last sector is one of the device |
| FtlHistory.RunFromInit | femu/bbssd/ftl.c:806-921 | from a new device exactly those logical pages are mapped of which some request has written a sector; a run leaves the map only if a request goes past the last sector |
| FtlBackgrounds.RoundReclaims | femu/bbssd/ftl.c:911-916 | a round collects in the background only with at most `gc_thres_lines` free lines; then it reclaims a victim line with as few live pages as any (pages blank, each block erased once and no other, its invalid pages gone, nothing unmapped, last of the free lines), unless there is no victim or fewer than an eighth of the pages of such a line are invalid; otherwise nothing changes after the request |
| FtlBackgrounds.ForcedLoopInNumbers | femu/bbssd/ftl.c:820-827 | before a write, lines are collected while there are at most `gc_thres_lines_high` free ones and a victim is left, each time one with as few live pages as any |
| FtlBackgrounds.LinesInTurn | femu/bbssd/ftl.c:84-155 | in every run lines are used in turn, first 0, 1, 2 and so on and then in the order in which they were collected |
| FtlBackgrounds.ReverseMapIsExact | femu/bbssd/ftl.c:829-850 | in every run the reverse map of a programmed page names a logical page exactly if the page is live, and then the one mapped to it |
| NandDiscipline.NextInBlock | femu/bbssd/ftl.c:157-224 | the page under the write pointer is the one after those programmed in its block since the last erase |
| NandDiscipline.RunIsDisciplined | femu/bbssd/ftl.c:575-615 | NAND discipline over the program and erase events of every run: between two erases of a block its pages are programmed in increasing order, each once, and the pages not blank at the end are those programmed since |
| NandArrays.NandArray.Erase | femu/bbssd/ftl.c:597-615 | blanks every page of the block, clears its counters and counts the erase; other blocks keep their pages |
| LineManagers.LineManager.Invalidate | femu/bbssd/ftl.c:551-573 | the line loses a valid page; a full line moves to the victim heap, a victim changes priority; the assertions hold |
| LineManagers.LineManager.Close | femu/bbssd/ftl.c:177-190 | the used-up line joins the full list or the victim heap; the assertions hold |
| LineManagers.LineManager.SelectVictim | femu/bbssd/ftl.c:668-689 | takes a victim with the least valid pages of all, unless there is none or, when not forced, it has too few invalid pages |
| Ftls.LivePageMayDrop | femu/bbssd/ftl.c:528-573 | in every state of the invariant no assertion of `mark_page_invalid` fails for a live page |
| Ftls.WritePointerMayProgram | femu/bbssd/ftl.c:575-595 | no assertion of `mark_page_valid` fails for the page under the write pointer, also during a collection |
| Ftls.LivePageMayMove | femu/bbssd/ftl.c:630-666 | no assertion of `gc_write_page` or below fails for a live page of the victim |
| Ftls.PageMayBeWritten | femu/bbssd/ftl.c:829-856 | no assertion fails in an iteration of the write loop |
| Ftls.OneMorePick | femu/bbssd/ftl.c:822-827 | the choices of the forced loop, one by one, make up a sequence of collections |
| Ftls.Ftl.constructor | femu/bbssd/ftl.c:363-392 | the tables, lines and write pointer of a new device |
| Ftls.Ftl.AdvanceWritePointer | femu/bbssd/ftl.c:157-209 | does in memory what the function of the same name does; ok is false exactly where the C code aborts |
| Ftls.Ftl.CleanOneBlock | femu/bbssd/ftl.c:691-711 | moves out the live pages of the block; no blank page is met and the count of moved pages is the block's `vpc` |
| Ftls.Ftl.DoGc | femu/bbssd/ftl.c:724-768 | collects a victim chosen as the code chooses, or reports that there is none or that it is spared |
| Ftls.Ftl.ForcedGc | femu/bbssd/ftl.c:822-827 | the loop terminates and its choices are possible ones of the modelled loop |
| Ftls.WrittenPages | femu/bbssd/ftl.c:806-858 | a write that completes adds to the map exactly the pages of its sectors; one that leaves the map goes past the last sector |
| Ftls.Ftl.Write | femu/bbssd/ftl.c:806-859 | a host write does what the modelled request does, or aborts, or leaves the map past `tt_pgs`, exactly when that does, keeps the invariant, and adds to the map exactly the pages of its sectors |
| Ftls.Ftl.Round | femu/bbssd/ftl.c:884-916 | a round of the FTL thread is a possible step of the modelled runs, with the same outcome, and collects in the background exactly as the numbers of free lines and of invalid pages demand |
| Ftls.Ftl.ServeAll | femu/bbssd/ftl.c:861-921 | on a provisioned device the thread serves any sequence of tolerable requests without aborting |
| RingProofs.TrueCount | femu/inc/rte_ring.h:402-411 | 32-bit subtraction gives the true distance from a loaded head to its limit whenever that is below 2^32: at least the room left, and the room left if the head is current |
| RingProofs.MoveHeadKeepsInv | femu/inc/rte_ring.h:390-430 | a store to the head or a compare-and-set keeps the protocol invariant if and only if, where it succeeds, there is room for the objects at that moment; else the order of the counters breaks |
| RingProofs.PromptHasRoom | femu/inc/rte_ring.h:421-430 | there is room if the head found is the one loaded, as it is if it has moved by less than 2^32 since, and always on a single-producer (single-consumer) side |
| RingProofs.CopyKeepsInv | femu/inc/rte_ring.h:293-350 | storing or fetching one object keeps the invariant: no other thread's objects are touched, and what is fetched is what was published |
| RingProofs.TailReached | femu/inc/rte_ring.h:352-365 | the wait in `update_tail` ends at the thread's own reservation, with no assumption on timing |
| RingProofs.PublishKeepsInv | femu/inc/rte_ring.h:352-365 | updating the tail keeps the invariant and hands over exactly the reserved stretch |
| RingRuns.StepKeepsInv | femu/inc/rte_ring.h:390-588 | every step keeps the invariant, except a head moved without room for the objects, which breaks it |
| RingRuns.RunKeepsInv | femu/inc/rte_ring.h:390-588 | `cons.tail <= cons.head <= prod.tail <= prod.head <= cons.tail + capacity`, 32-bit fields equal to the counters, and reservations that tile both stretches hold throughout an interleaving if and only if each head that is moved has room for the objects; so they do if no head or limit gets 2^32 past a head that a call has loaded |
| RingRuns.RunIsFifo | femu/inc/rte_ring.h:452-588 | under the same condition what has been dequeued is a prefix of what has been enqueued, and at most `capacity` objects lie between |
| RingRuns.RefinesQueue | femu/inc/rte_ring.h:390-588 | each step takes objects off the front of one FIFO queue, puts objects at its end, or leaves it alone |
| RingRuns.CallResult | femu/inc/rte_ring.h:452-588 | a finished dequeue returns exactly the objects it took off the queue, and a finished enqueue put in exactly what it was given; the number of objects, also 0, is what there was room for at the moment recorded, all or nothing with a fixed count |
| RingCalls.FinishedCalls | femu/inc/rte_ring.h:390-588 | in every run in which no head or limit gets 2^32 past a head that a call has loaded, each finished call, refused or not, got what there was room for at one moment between its start and its end |
| RingRuns.Decision | femu/inc/rte_ring.h:402-420 | with a current head, a fixed call is refused exactly when there is no room for all, and a burst goes for as many as there is room for; with a stale head whose limit is less than 2^32 away a call goes for no less, so a refusal is right |
| RingRuns.RefusalsAreRight | femu/inc/rte_ring.h:402-416 | a refusal from a head loaded at any earlier time is right, whatever is asked for, if and only if the count is no less than the room there is; it is no less if the limit is less than 2^32 away |
| RingCases.WrappedCountRefuses | femu/inc/rte_ring.h:402-416 | a run in which 2^32 - 1 objects pass between the two loads and a producer is refused on an empty ring |
| RingRuns.StaleCount | femu/inc/rte_ring.h:402-411 | the count computed from a head loaded at any earlier time is in the documented range, for producers and for consumers, if and only if that head, modulo 2^32, is close enough to the limit |
| RingCases.StaleAmount | femu/inc/rte_ring.h:402-417 | a run in which a producer with a stale head goes for two objects on a ring for one |
| RingCases.StaleEntries | femu/inc/rte_ring.h:512-522 | a run in which a consumer with a stale head goes for two objects of an empty ring |
| RingRuns.StaleHeadIsRetried | femu/inc/rte_ring.h:421-430 | after a head has moved on, by less than 2^32, the compare-and-set fails and nothing shared changes |
| RingRuns.SlotsAreExclusive | femu/inc/rte_ring.h:293-350 | no two threads own the same slot |
| RingRuns.SomeoneCanFinish | femu/inc/rte_ring.h:352-365 | whenever a thread has reserved, some thread of its side that has reserved can copy on or publish |
| RingRuns.FailureMeansProgress | femu/inc/rte_ring.h:421-430 | a compare-and-set fails only if another call has moved the head |
| RingRuns.RingCountIsExact | femu/inc/rte_ring.h:861-868 | `rte_ring_count`, whatever happens between its two loads, is at most the capacity and, unless consumers overtake the tail loaded first, the number of objects enqueued at the first load and not fully dequeued at the second |
| RingCases.WrappedHeadOverfills | femu/inc/rte_ring.h:421-430 | a run of the code in which a head goes once around 2^32 while a producer sleeps; then the compare-and-set succeeds by mistake and the ring is overfilled |
| RingCases.WrappedHeadFits | femu/inc/rte_ring.h:421-430 | the same run with one more object dequeued: the compare-and-set succeeds by mistake and the invariant holds |
| RingCopy.EnqueuePtrs | femu/inc/rte_ring.h:293-318 | the unrolled and wrapping copy stores each object at `(head + i) mod size`, and nothing else |
| RingCopy.DequeuePtrs | femu/inc/rte_ring.h:323-348 | the unrolled and wrapping copy fetches each object from `(head + i) mod size`, in order |
| RingCopy.StepsPutAll | femu/inc/rte_ring.h:293-318 | storing object by object, as the transition system does, gives what the macro gives |
| RingCopy.StepsGetAll | femu/inc/rte_ring.h:323-348 | fetching object by object gives what the macro gives |
| RingSetup.PowerOf2Accepts | femu/lib/rte_ring.c:84 | the test `POWEROF2` passes exactly for powers of two and 0 |
| RingSetup.AlignIsLeast | femu/inc/rte_ring.h:166-177 | `rte_align32pow2`, with its shifts and ors, is the least power of two not below its argument, or 0 where there is none in 32 bits |
| RingSetup.CreatedExactly | femu/lib/rte_ring.c:87-97 | exactly which rings are created: sizes 0 and powers of two up to 2^27, and exact sizes below 2^27 or so large that the size comes out as 0 |
| RingSetup.CreateIsUsable | femu/lib/rte_ring.c:99-161 | a created ring satisfies the invariant exactly when its size is not 0, with the capacity asked for (or one less) |
| RingSetup.FlagsAreObeyed | femu/lib/rte_ring.c:110-111 | after any run of a created ring: made for many producers, a call may always begin and moves the head exactly if it is still the one loaded; made for one, a call may begin exactly if no other is under way, and moves the head at once; the same for consumers |
| RingSetup.PollerRing | femu/lib/rte_ring.c:187-212 | the rings of the pollers are created, usable, for 2^16 - 1 requests, many producers and one consumer |
| RingSetup.MaskFindsSlot | femu/inc/rte_ring.h:293-298 | in a created ring `index & mask` is the index modulo the size |
| ZnsInvariant.AssignRequeues | femu/zns/zns.c:226-269 | changing the state of a zone moves it from the queue of its state to that of the new one, and changes no other zone |
| ZnsInvariant.OpenKeepsInv | femu/zns/zns.c:533-561 | an open keeps the resource invariant, also when it fails half-way for want of an open resource |
| ZnsInvariant.AutoOpenKeepsInv | femu/zns/zns.c:402-433 | making room for a write keeps the invariant and leaves the zone to be written as it was, with the resources it needs |
| ZnsInvariant.WriteZoneKeepsInv | femu/zns/zns.c:1165-1219 | a write or append keeps the resource invariant whether or not its data can be mapped or it overruns the zone |
| ZnsInvariant.SetZdExtKeepsInv | femu/zns/zns.c:631-648 | setting a zone descriptor extension takes an active resource or fails without effect |
| ZnsCommands.LimitsHold | femu/zns/zns.h:187-226 | in every run of commands, from any configuration, the counters are the numbers of open and of active zones and neither exceeds its limit |
| ZnsCommands.ShutdownResult | femu/zns/zns.c:163-206 | after a shutdown no zone is open, and zones that were open or closed are closed if they hold data or an extension, else empty |
| ZnsBulk.AllInBulk | femu/zns/zns.c:683-744 | CLOSE, FINISH, RESET and OFFLINE on all zones succeed and change each zone exactly as its own state demands |
| ZnsBulk.OpenAllResult | femu/zns/zns.c:683-744 | OPEN on all zones opens closed zones in queue order, as many as the limit allows, and fails exactly if some are left |
| ZnsBulk.ResetAllResult | femu/zns/zns.c:816-832 | leaves every zone empty, read-only or offline, and both counters 0 |
| ZnsBulk.FinishAllResult | femu/zns/zns.c:810-815 | leaves no zone open or closed, and both counters 0 |
| ZnsBulk.CloseAllResult | femu/zns/zns.c:804-809 | leaves no zone open and every active zone active |
| ZnsWrites.WriteEffect | femu/zns/zns.c:1165-1219 | a write moves the pointers of its zone and opens or fills it; other zones are untouched except that one may be closed |
| ZnsWrites.WriteStaysSequential | femu/zns/zns.c:435-495 | after a write the pointers agree and stay in the zone if and only if its data was mapped and it ends at or before the boundary; the zone becomes full exactly at the boundary |
| ZnsWrites.CheckedWriteFits | femu/zns/zns.c:316-344 | a write that passes the checks starts at the write pointer and ends at or before the boundary |
| ZnsWrites.NearlyFullIsReached | femu/zns/zns.c:1165-1219 | the state of the next two rows is that of a new namespace after one write |
| ZnsWrites.AppendOverruns | femu/zns/zns.c:316-344 | an append that passes the checks can overrun its zone and leave it open |
| ZnsWrites.FailedMapDiverges | femu/zns/zns.c:1195-1219 | a write whose data cannot be mapped leaves the write pointers apart, and the skipped blocks unwritable |
| ZnsLog.StepKeepsLogged | femu/zns/zns.c:1036-1096 | a command keeps the sequential-write guarantee if and only if, when it is accepted, its data can be mapped and, for an append, it ends within the boundary and `is_write` of its request structure is set |
| ZnsLog.RunKeepsLogged | femu/zns/zns.c:1221-1238 | the guarantee holds throughout a run if and only if each command keeps it: then the addresses stored in a zone since it was last empty are exactly those from its start to its write pointer, in order, each once, unless it was finished |
| ZnsLog.SequentialFromStart | femu/zns/zns.c:1221-1238 | the same for runs of a new device of any configuration |
| ZnsLog.FlagIsLastWrite | femu/zns/zns.c:1178 | after any run, `is_write` of a request structure is set if and only if the last read or write that used it was a write |
| ZnsLog.FirstAppendStoresNothing | femu/zns/zns.c:1106-1109 | an append as the first command of a new device succeeds and moves the write pointer but stores nothing |
| ZnsReads.CheckZoneRead | femu/zns/zns.c:369-400 | never leaves the zone array; succeeds exactly if no zone touched is offline and, without cross-zone reads, only one is touched |
| ZnsReads.Report | femu/zns/zns.c:891-997 | counts the matching zones (capped for a partial report) and describes the first of them in order, each field by that of the zone, with a write pointer exactly for empty, open and closed zones, from any address, also inside a zone, unless the counting loop leaves the zone array |
| ZnsReads.CountMatches | femu/zns/zns.c:949-957 | the counting loop stays in the zone array if and only if the capacity is reached by address before the end of the array or a partial report is full; then it counts the matching zones |
| ZnsReads.WholeZonesAreBounded | femu/zns/zns.c:949-957 | with a capacity that is a multiple of the zone size the loop stays in the array for every address |
| ZnsReads.OddCapacityOverruns | femu/zns/zns.c:949-957 | a report that leaves the array, and a partial one and one from another address that do not |
| ZnsReads.CompleteReportOverruns | femu/zns/zns.c:949-957 | with a capacity that is not a multiple of the zone size, every complete report from the start of a zone leaves the array |
| ZnsAccepts.WriteIsAnswered | femu/zns/zns.c:286-344 | the exact answer to every write and append, by zone state, pointer, boundary and the numbers of open and active zones: accepted exactly if it fits, names the write pointer (the start of the zone, for an append), the zone is empty, open or closed, and the resources it needs are left or can be freed by closing a zone |
| ZnsAccepts.AcceptedWriteMoves | femu/zns/zns.c:435-495 | a successful write or append moves both pointers by its length; the zone becomes full exactly at its boundary, else it is open, explicitly if it was |
| ZnsAccepts.OldestIsClosed | femu/zns/zns.c:402-433 | no other zone changes, except that the longest implicitly open one is closed exactly if the resource is needed; the queue of implicitly open zones stays in order of opening |
| ZnsAccepts.OpIsAnswered | femu/zns/zns.c:533-648 | the exact answer to OPEN, CLOSE, FINISH, RESET and OFFLINE of one zone, and what the zone becomes; a refused one changes nothing |
| ZnsAccepts.ExtensionIsAnswered | femu/zns/zns.c:839-853 | the exact answer to setting a descriptor extension, and what the zone becomes |
| ZnsAccepts.AllIsAnswered | femu/zns/zns.c:683-744 | with the select-all bit CLOSE closes every open zone, FINISH fills every open or closed one, RESET empties every zone not read-only or offline, OFFLINE takes every read-only one offline, and all succeed |
| ZnsOrders.OpenAllIsAnswered | femu/zns/zns.c:683-744 | OPEN with the select-all bit opens as many closed zones, in queue order, as the limit leaves, and succeeds exactly if that is all of them |
| ZnsOrders.AllInOrder | femu/zns/zns.c:694-724 | after CLOSE or FINISH on all zones the queue of closed or full zones goes on with the others in the order visited |
| ZnsOrders.ShutdownIsAnswered | femu/zns/zns.c:163-206 | what a shutdown makes of each zone, and the order in which it leaves the closed ones |
| ZonedNamespaces.HeldResources | femu/zns/zns.h:187-226 | what the assertions of the counters need holds for every zone that gives up a resource |
| ZonedNamespaces.Namespace.OpenZone | femu/zns/zns.c:533-561 | does in memory what the modelled open does; the counter assertions hold |
| ZonedNamespaces.Namespace.ProcQueue | femu/zns/zns.c:683-744 | the loop over a queue terminates and visits each zone once although it relinks the zone being visited |
| ZonedNamespaces.Namespace.DoWrite | femu/zns/zns.c:1036-1096 | does in memory what the modelled write does, and returns where its data goes; the zone index and write pointer assertions hold |
| ZonedNamespaces.Namespace.Append | femu/zns/zns.c:1106-1109 | an append transfers at the write pointer in the direction of the `is_write` it finds |
| ZonedNamespaces.Namespace.Read | femu/zns/zns.c:1116-1163 | a read clears `is_write` and succeeds exactly if its limits, range, zones and pointers allow; it transfers out of the backend |
| ZonedNamespaces.Namespace.ShutQueue | femu/zns/zns.c:182-206 | the loop terminates although zones are put back on the queue it walks along |
| ZonedNamespaces.Namespace.Execute | femu/zns/zns.c:1221-1238 | every command that changes zones does in memory what the modelled command does, including its transfer and `is_write`, so the results about runs hold of the namespace |
| ZnsData.StepKeepsRecord | femu/zns/zns.c:1036-1096 | over a clean command each zone of the backend keeps holding, from its start on and without gaps, the bytes stored in it since it was last empty, whatever other zones get |
| ZnsData.RunReadsBack | femu/zns/zns.c:1221-1238 | after every clean run blocks below the write pointer of a zone not finished hold exactly the bytes stored in the zone since it was last empty, in the order in which they came |
| ZnsData.NewIsRecorded | femu/zns/zns.c:84-121 | so it is on a new device of any configuration over a backend that holds anything |
| ZnsData.Serve | femu/zns/zns.c:1165-1219 | a clean command executed in memory, with its `backend_rw` from segments of host memory, does to zones, flag and backend what the results about bytes say |
| ZnsData.ReadBack | femu/zns/zns.c:1116-1163 | the `backend_rw` of a read below the write pointer puts the bytes last stored there into host memory |
| CompletionQueues.PostHolds | femu/nvme-io.c:101-128 | posting keeps the last lap in the slots and the next lap's slots at the opposite phase |
| CompletionQueues.SeesTheNext | femu/nvme-util.c:13-20 | with at most a full queue unread, the host sees an entry exactly if there is one, and it is the right one |
| CompletionQueues.OverrunOutcome | femu/nvme-io.c:101-128 | with any number of unread entries: which entry the host's slot holds, and that the host takes it exactly if the device is an even number of laps ahead |
| CompletionQueues.Overruns | femu/nvme-io.c:101-128 | a device that posts more entries than there are slots before the host looks: with a lead of an odd number of laps the host finds nothing, with an even one it takes an entry of the last lap for the first |
| CompletionQueues.HostTakesPosted | femu/nvme-util.c:13-20 | over unboundedly many wraps a host following the phase tag reads exactly the posted sequence |
| CompletionQueues.HostFollowsDevice | femu/nvme-util.c:13-20 | from cleared memory, a host that is not overrun has taken a prefix of what was posted and sees an entry exactly if there is one |
| CompletionQueues.CompletionQueue.PostCqe | femu/nvme-io.c:101-128 | posts one entry at the tail in memory, with the phase that the host expects |
| Completions.Poller.ProcessCompletions | femu/nvme-io.c:130-197 | requests are conserved between ring, heap and completions; completions are in order of expiry, none early; everything left expires after the last clock sample |
| Prps.WalkIsEntries | femu/dma.c:54-84 | the loop over a chained list, from any entry of a page, finds the entries the list means |
| Prps.ListIsStandard | femu/dma.c:54-84 | the code decodes a list as section 4.3 of NVM Express 1.4 has it, whatever memory holds, if and only if the list starts on a page boundary or ends before the next one |
| Prps.TransferFits | femu/nvme-io.c:340-346 | a successful mapping has `len` bytes in all, in non-empty segments that cross no page boundary (the size assertion of `nvme_rw`) |
| Prps.ByteAddress | femu/dma.c:23-110 | the host address of every byte of a successful mapping: PRP1 and on to the end of its page, then PRP2 and on if one more page is enough, else the page named by the entry of the list in memory that the distance selects |
| Prps.RefusedExactly | femu/dma.c:32-84 | exactly which pointers are refused: a PRP1 of 0; where more is to be transferred, a PRP2 of 0, one that is no page address if one page is left, or one that names a list in which a word that is used is 0 or no page address |
| Prps.MapList | femu/dma.c:46-84 | the scatter/gather list gets exactly the decoding of the chained list, and every entry used has been fetched; it fails exactly if an entry is no page address |
| Prps.MapPrp | femu/dma.c:23-110 | maps PRP1 and PRP2 as an entry or a list so that every byte lies at its address, or fails, as the decoding says |
| Backends.MemoryIsLittleEndian | femu/dma.c:58 | an entry of a list is its eight bytes in host memory, the lowest first |
| Backends.GatherByte | femu/backend/dram.c:27-68 | byte k of a transfer is the byte at the address of byte k |
| Backends.GatherScatter | femu/backend/dram.c:27-68 | what is stored along disjoint segments is found there again |
| Backends.BackendWrite | femu/backend/dram.c:27-68 | the named bytes of host memory become the bytes of the backend from the offset on, and no others change |
| Backends.BackendRead | femu/backend/dram.c:27-68 | bytes of the backend are stored along the segments |
| Backends.WriteThenRead | femu/backend/dram.c:27-68 | writing a range and reading it back into disjoint segments returns the same bytes |
| Backends.Rw | femu/nvme-io.c:315-358 | a read or write request maps its pointers, read from host memory as it is on arrival, and copies each requested byte between its address in host memory and its place in the backend, or changes nothing |
| Backends.BufWrite | qemu-compat/wrapper-qemu.c:257-279 | gathers the segments into a buffer and aborts exactly if they do not fit |
| Bitmaps.Set | qemu-compat/bitmap.c:157-177 | sets exactly the bits of the stretch |
| Bitmaps.SetAtomic | qemu-compat/bitmap.c:179-216 | the atomic form sets exactly the bits of the stretch |
| Bitmaps.Clear | qemu-compat/bitmap.c:218-238 | clears exactly the bits of the stretch |
| Bitmaps.TestAndClear | qemu-compat/bitmap.c:240-285 | clears exactly the bits of the stretch and tells whether one of them was set |
| BitSearch.FindNextBit | qemu-compat/bitops.c:19-77 | the least set bit from the offset on, or the size |
| BitSearch.FindNextZeroBit | qemu-compat/bitops.c:84-127 | the least clear bit from the offset on, or the size |
| BitSearch.FindLastBit | qemu-compat/bitops.c:129-157 | the greatest set bit, or the size |
| BitSearch.FindNextZeroArea | qemu-compat/bitmap.c:312-335 | terminates; for a mask that is one less than a power of two, the least aligned start of `nr` clear bits that fits, or a number above the size exactly if there is none |
| BitCopy.CopyWithSrcOffset | qemu-compat/bitmap.c:408-443 | the first bits of the target are those of the source from the shift on, for every shift and length |
| BitCopy.CopyWithDstOffset | qemu-compat/bitmap.c:450-486 | the bits of the target from the shift on are those of the source; bits below the shift and later words are untouched |
| BitCopy.ThereAndBack | qemu-compat/bitmap.c:408-486 | copying with a target offset and back with the same source offset returns the original bits |

## Left out

- NAND and garbage-collection latencies (`ssd_advance_status`, `gc_read_page`): they decide when a request expires, not what happens to its pages. For the same reason `ssd_read` and deallocation appear only as requests that change no table.
- The floating-point computation of the thresholds in `ssd_init_params`; they are parameters. One plane per LUN, as the source assumes.
- What happens in memory once `ssd_write` has indexed out of its map: such a run ends there.
- Picks among victims with equally many valid pages: runs range over all of them, while the class takes the one at the root of the heap.
- Integer widths in the FTL, the heap and the zones: their counters are bounded by the number of pages or zones and are unbounded integers here. Byte and block addresses of requests and bit numbers likewise; words of bitmaps are 64-bit vectors.
- Memory ordering, pauses and inline assembly of the ring: loads, stores and compare-and-set are sequentially consistent steps. `index & mask` is written as a remainder in the steps, which `RingSetup.MaskFindsSlot` justifies. Growing memory for a ring, its name and its dump are not modelled.
- Zone attributes other than the descriptor-extension bit, the contents of extensions, the do-not-retry bit of status codes, and the sizes and transfer limits of commands, which are inputs here. No code makes a zone read-only; such zones are allowed in the model.
- Failed I/O requests in `nvme_process_sq_io`: they never reach the ring, at which the claims about completion start. An inactive completion queue makes the completion loop spin; all queues are active here.
- The controller memory buffer, discontiguous queues and other operation modes (Open-Channel, computational), identify, log and feature commands.
- Prps.ListIsStandard: covers lists at a multiple of 8, which section 4.3 of NVM Express 1.4 asks of the host; the code does not check it.
- Backends.Rw: segments must lie in host memory, and pointers outside it are read as 0; what the PCI layer does there is not part of this model.
- ZnsData.Serve: is about clean commands. What an append that runs past the last zone, or one in the wrong direction, does to memory is left at the transfer that `ZonedNamespaces.Namespace.Execute` returns.
- RingRuns.CallResult: for a call that went by a number that had come round to the same 32 bits it promises only that no more objects moved than there was room for.
- The other bitmap operations (complement, and, or, xor, counting, comparison), which are single passes without carry from word to word. Shifts by a variable count are written as that many shifts by one.
- `qemu-compat/wrapper-main.c`, interrupts, threads, doorbells and locking of memory.
