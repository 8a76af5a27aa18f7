# A verified model of the Ocean kernel's core

Ocean is a microkernel for x86-64. This project models, in Dafny, the parts of it that
carry state other parts rely on, and proves what each promises over every input and over
every run:

* physical memory: the buddy allocator and the zoned page allocator above it;
* synchronous message passing: send, receive, call, reply, thread exit, endpoint teardown;
* the lifetime of endpoints and their reference counts;
* the two sleep loops (`ipc_call`, `process_wait`) at the granularity of lock sections;
* four-level page tables, the area lists of address spaces, and both together in
  mapping, unmapping, cloning and destroying address spaces;
* the scheduler's run queue with its bitmap;
* the slab allocator with `kmalloc`, and the C library's `malloc`;
* the initial user stack of a program, capability spaces, and the RAM file system's tree.

## How it is organised

Each component has up to three layers, one file each.

1. Operations as functions on values (`Buddy`, `Pmm`, `Ipc`, `EndpointLife`, `Paging`, `Vma`,
   `Vmm`, `Sched`, `LibcHeap`, `ExecStack`, `Caps`, `Ramfs`, `Slab`, `Kmalloc`), with the
   theorems about single operations (`BuddyTheory`, `PmmTheory`, `PagingOps`, `PagingTree`,
   `PagingNeed`, `VmPages`, `VmRecords`, `VmNeed`, `VmSpaces`, `VmRegions`, `VmLife`,
   `VmConserve`, `VmDemand`, `VmShortage`, `LibcHeapOps`, `PageLedger`, `IpcInv`, `IpcPlaces`,
   `IpcLinks`, `IpcBook`, `IpcAnswers`, `IpcOrder`).
2. Runs: arbitrary sequences of operations, and what they all keep (`BuddyRuns`, `PmmRuns`,
   `IpcRuns`, `IpcDebtors`, `EndpointRuns`, `SleepWake`, `PagingRuns`, `VmClone`, `VmFrames`,
   `SchedRuns`, `LibcHeapRuns`, `Caps`, `RamfsRuns`, `Kmalloc`).
3. Objects: classes whose methods update fields and arrays in place, with the source's
   loops, each proved equal to the function of layer 1 on the object's value (`BuddyZone`,
   `PmmObject`, `IpcObject`, `EndpointObject`, `PagingObject`, `VmaObject`, `VmObject`,
   `SchedObject`, `LibcHeapObject`, `ExecObject`, `CapsObject`, `RamfsObject`, `SlabObject`).

`Common` holds what they share, `Bits` the arithmetic of aligned power-of-two blocks.

Usable memory, message contents, the choice of the next step and, outside virtual memory,
allocation results are parameters, so every theorem covers every outcome of them. In virtual
memory every allocation is a frame from one pool: user pages, page tables, area records and
address-space structures, since the caches declared for the last two are never set up.

## Where the code does not meet the natural property

In these places the property one would expect is false. The model follows the code, an
input that shows the failure is given, and the exact condition under which the property
holds is proved.

* `free_pages` of a zone is not the number of free pages: splitting a block counts its
  upper halves a second time, and freeing counts the absorbed buddies a second time
  (`BuddyRuns.CounterDrifts`). The drift is given exactly, is never negative, and never
  hides a run (`BuddyRuns.ZoneRunKeeps`, `PmmTheory.CounterNeverHidesRun`).
* A server that receives a second call before replying overwrites its record of the first
  caller, who then waits for nobody (`IpcRuns.SecondCallOrphansFirst`,
  `IpcRuns.SecondRecvOrphansFirst`); fork copies that record, and the child may answer
  (`IpcRuns.ForkedDebtAnswersWrong`). Short runs from boot reach both
  (`IpcDebtors.OrphanRun`, `IpcDebtors.ForkRun`). Queues, matching
  and order survive both (`IpcRuns.RunSound`), answers survive the first
  (`IpcRuns.RunFair`), and links survive exactly the disciplined steps
  (`IpcSteps.DisciplineIsExact`, `IpcSteps.DebtsSurviveIff`).
* `endpoint_destroy` reads the endpoint after dropping the list's reference
  (`EndpointRuns.SelfTestReadsFreed`, `EndpointRuns.DestroyReadIsSafeIff`); dynamic ids
  repeat once the counter comes round (`EndpointRuns.IdRepeats`,
  `EndpointRuns.CreateDistinctIff`); creation flags containing DEAD break the books
  (`EndpointLife.PublishInv`).
* A failed range map unmaps pages that were mapped before it (`PagingNeed.MappingLost`,
  `PagingNeed.FailedRangeRestoresIff`). A range that ends in the last page of the address
  space never ends by its own test (`PagingOps.LoopEndsIff`): it runs on until a page fails,
  and then nothing may be taken back (`PagingNeed.TopPageStays`).
* A failed region map leaves the part of its area without pages behind
  (`VmShortage.AreaLeftBehind`, `VmRegions.MapRegionAreas`); an unmap that needs a frame for
  the second half of an area and has none keeps the area whole (`VmShortage.HoleNotCut`,
  `VmSpaces.UnmapAddresses`, for the list alone `Vma.RefusedSplit`, `Vma.RemoveSpec`); wrapped and
  empty ranges are `Vma.InsertOkIff`, `Vma.RemoveWrapped` and `Vma.RemoveEmpty`.
* A clone that fails in the middle of an area loses the frames it had copied for that area:
  the area is not yet on the child's list when the child is destroyed (`VmShortage.CopyLost`).
  It loses none exactly when the pool breaks in no area (`VmDemand.CloneKeepsFramesIff`), and
  nothing else is ever lost (`VmFrames.RunConserves`).
* `mkdir` under a free inode number that it is about to allocate makes a directory that is
  its own parent (`RamfsRuns.MkdirInFreeInode`, `RamfsRuns.MkdirSpec`).
* Neither heap gives the alignment it declares (`LibcHeapOps.FirstPointerNotAligned` and
  `LibcHeapOps.MallocAlignedIff`, `Kmalloc.AlignedIff`), and both serve the largest
  requests with too little (`LibcHeapOps.MallocWraps` and `LibcHeapOps.MallocSpec`,
  `Kmalloc.KmallocWraps` and `Kmalloc.KmallocSpec`).

A blocking send or receive marks itself asleep after releasing the endpoint's lock, unlike
`ipc_call` and `process_wait`. On one CPU that does not switch inside the kernel, as this
one, no wakeup is lost by that (`SleepWake.NoLostPartner`); a preemptible or multi-CPU
kernel would lose one (`SleepWake.SleepLostIff`, `SleepWake.SleepCanBeLost`).

## Model

| member | source | states |
|---|---|---|
| `Common.DropSpec` | kernel/include/ocean/list.h:97-109 | deleting an entry from a list without repetitions removes exactly that entry, keeps the others and shortens the list by one if it was there |
| `Common.Unlinked` | kernel/include/ocean/list.h:97-109 | the unlink, as a walk to the entry, refines Drop |
| `Buddy.BuddyFacts` | kernel/mm/buddy.c:28-40 | XOR gives the other half of the parent block, clearing the bit gives the parent: the buddy relation is symmetric, stays aligned and differs from the block |
| `Buddy.AddBlock` | kernel/mm/buddy.c:73-80 | listing an unused block whose buddy is not free keeps the zone invariant and adds exactly that block |
| `Buddy.RemoveBlock` | kernel/mm/buddy.c:85-90 | unlisting a free block keeps the zone invariant, removes exactly that block and leaves its pages unused |
| `BuddyTheory.Coverage` | kernel/mm/buddy.c:227-264 | an aligned, fully free run always lies inside a single free block |
| `BuddyTheory.BlockIsMaximalRun` | kernel/mm/buddy.c:165-204 | a block is on a free list if and only if it is a maximal aligned run of free pages: no two free buddies ever coexist |
| `BuddyTheory.CanonicalForm` | kernel/mm/buddy.c:165-204 | the free lists are a function of the set of free pages: equal free pages, equal blocks and equal counts per order |
| `BuddyTheory.ExpandSpec` | kernel/mm/buddy.c:98-112 | splitting gives back everything but the first 2^low pages of the block, in canonical form |
| `BuddyTheory.AllocFailsIffNoRun` | kernel/mm/buddy.c:119-158 | allocation fails if and only if no aligned run of 2^order free pages exists, whatever the free lists look like |
| `BuddyTheory.AllocSpec` | kernel/mm/buddy.c:119-158 | a successful allocation takes 2^order aligned pages that were free and no other page; the page counter drifts by the size of the block split minus the size handed out |
| `BuddyTheory.BuddyFlagIsBlock` | kernel/mm/buddy.c:50-68 | the flag-and-order test on the page record is true exactly for the free blocks of that order |
| `BuddyTheory.MergeSpec` | kernel/mm/buddy.c:183-197 | absorbing a free buddy leaves an aligned, unused block of twice the size in the zone |
| `BuddyTheory.CoalesceSpec` | kernel/mm/buddy.c:165-204 | the merge loop removes exactly the absorbed buddies and stops at a block whose buddy is not free |
| `BuddyTheory.FreeSpec` | kernel/mm/buddy.c:165-204 | freeing makes exactly the block's pages free again in canonical form; the counter drifts by the merged size minus the freed size |
| `BuddyTheory.AllocFreeRestores` | kernel/mm/buddy.c:119-204 | allocating and freeing the same block restores every free list as a set and every count |
| `BuddyTheory.FreesCommute` | kernel/mm/buddy.c:165-204 | two disjoint blocks can be freed in either order with the same free blocks as result |
| `BuddyRuns.AddOneSpec` | kernel/mm/buddy.c:227-264 | one greedy block: it fits, keeps the canonical form and adds exactly its pages |
| `BuddyRuns.AddPagesSpec` | kernel/mm/buddy.c:227-264 | adding any run with no free neighbour gives exactly the maximal aligned decomposition, with an exact page counter |
| `BuddyRuns.StepKeeps` | kernel/mm/buddy.c:119-264 | every legal operation keeps the zone invariant and its bounds, and moves the counter's drift by a known, non-negative amount |
| `BuddyRuns.ZoneRunKeeps` | kernel/mm/buddy.c:119-264 | over every run of adds, allocations and frees the zone stays canonical and free_pages exceeds the true number by the sum of the drifts, never less |
| `BuddyRuns.CounterDrifts` | kernel/mm/buddy.c:98-158 | two pages added and one handed out: one page is free and the counter says two |
| `BuddyZone.Zone.constructor` | kernel/mm/buddy.c:209-219 | empty free lists and zero counters |
| `BuddyZone.Zone.AddToFreeArea` | kernel/mm/buddy.c:73-80 | updates page record, list and counters in place as the value model does |
| `BuddyZone.Zone.RemoveFromFreeArea` | kernel/mm/buddy.c:85-90 | updates page record, list and count in place as the value model does |
| `BuddyZone.Zone.Expand` | kernel/mm/buddy.c:98-112 | the splitting loop refines Expand |
| `BuddyZone.Zone.AllocPages` | kernel/mm/buddy.c:119-158 | the search loop refines Alloc, including the failing case |
| `BuddyZone.Zone.FreePages` | kernel/mm/buddy.c:165-204 | the merge loop refines Free |
| `BuddyZone.Zone.LargestFit` | kernel/mm/buddy.c:238-251 | the loop finds the largest order that is aligned and fits |
| `BuddyZone.Zone.AddPages` | kernel/mm/buddy.c:227-264 | the greedy loop refines AddPages |
| `PmmTheory.CounterNeverHidesRun` | kernel/mm/pmm.c:375-407 | the quick free_pages test never skips a zone that holds a run, although the counter is not exact |
| `PmmTheory.AllocFromSpec` | kernel/mm/pmm.c:375-433 | the zone loop serves from the highest permitted zone that holds a run and fails exactly when none does |
| `PmmTheory.AllocPagesSpec` | kernel/mm/pmm.c:375-433 | fails without a change exactly when no permitted zone holds a run; otherwise the block's pages leave that zone only, carry one compound mark, and no other page changes |
| `PmmTheory.AllocTooLarge` | kernel/mm/pmm.c:375-433 | orders from MAX_ORDER up are refused without any change |
| `PmmTheory.FreePagesSpec` | kernel/mm/pmm.c:446-468 | the block's pages become free in their own zone, its compound marks vanish, every other zone and page is untouched |
| `PmmRuns.AllocStep` | kernel/mm/pmm.c:375-433 | an allocation keeps the ledger of live blocks, the marks and the set of managed pages |
| `PmmRuns.FreeStep` | kernel/mm/pmm.c:446-468 | freeing a live block keeps the ledger, the marks and the set of managed pages |
| `PmmRuns.StepKeeps` | kernel/mm/pmm.c:375-468 | either operation keeps the ledger invariant and the set of managed pages |
| `PmmRuns.RunKeeps` | kernel/mm/pmm.c:375-468 | over every run: zones stay canonical, live blocks stay apart and off the free lists, compound marks name exactly the live blocks, and the pages free or live are the same set throughout |
| `PmmRuns.AllocThenFree` | kernel/mm/pmm.c:375-468 | allocating a block and freeing it restores every free list, as a set, and every page flag |
| `PmmRuns.LiveBlocksApart` | kernel/mm/pmm.c:375-433 | a page belongs to at most one live block |
| `PmmObject.MemoryManager.constructor` | kernel/mm/pmm.c:95-121 | the three fixed zone ranges; over an unmarked page array that reaches past 4 GiB they are a correct start for adding memory |
| `PmmObject.MemoryManager.MarkCompound` | kernel/mm/pmm.c:409-424 | the loop that marks head and tails refines Compound |
| `PmmObject.MemoryManager.AllocPages` | kernel/mm/pmm.c:375-433 | the method refines AllocPages of the value model |
| `PmmObject.MemoryManager.AddUsableMemory` | kernel/mm/pmm.c:158-208 | the scan hands every maximal run of usable pages of one zone to the allocator: afterwards exactly the usable pages are free, in canonical form |
| `PmmObject.MemoryManager.Flush` | kernel/mm/pmm.c:158-208 | adding one finished run to its zone |
| `PmmObject.MemoryManager.FreePages` | kernel/mm/pmm.c:446-468 | the method refines FreePages of the value model |
| `PmmObject.FlushSpec` | kernel/mm/pmm.c:158-208 | adding a maximal run moves the frontier of added pages to its end and keeps the canonical form |
| `PmmObject.BootIsLegalStart` | kernel/mm/pmm.c:95-208 | what boot leaves behind is a correct start for every run, and the managed pages are exactly the usable ones |
| `PageLedger.TakenSpec` | kernel/mm/pmm.c:375-433 | a block handed out was in nobody's hands and no slab mark changes; a refusal changes nothing |
| `PageLedger.GetSpec` | kernel/mm/pmm.c:632-640 | the same for the default-flag wrapper |
| `PageLedger.MarksTellOrder` | kernel/mm/pmm.c:409-433 | the marks of a block's first page tell the order it was handed out with |
| `PageLedger.GiveSpec` | kernel/mm/pmm.c:643-659 | freeing with the order the marks tell is freeing the block of the ledger, and no slab mark changes |
| `PageLedger.MarkSlabSpec` | kernel/mm/slab.c:130-133 | the slab mark means nothing to the page allocator |
| `PageLedger.LiveIntervals` | kernel/mm/pmm.c:375-468 | blocks handed out lie side by side as address ranges |
| `IpcInv.DirectTransferQ` | kernel/ipc/message.c:154-222 | handing a message to a waiting receiver keeps the queue invariant: every thread on at most one queue, once, exactly while it sleeps there, and never senders and receivers at once |
| `IpcInv.TakeSenderQ` | kernel/ipc/message.c:279-356 | taking the first queued sender keeps the queue invariant |
| `IpcInv.RefuseSenderQ` | kernel/ipc/message.c:279-356 | refusing a sender whose window cannot be copied keeps the queue invariant |
| `IpcInv.EnqueueQ` | kernel/ipc/message.c:224-266 | queueing a sender (or a receiver) keeps the queue invariant when the opposite queue is empty |
| `IpcInv.AwaitReplyQ` | kernel/ipc/message.c:408-476 | the reply wait keeps the queue invariant |
| `IpcInv.ResumeQ` | kernel/ipc/message.c:244-266 | what a thread does after its sleep keeps the queue invariant |
| `IpcInv.DestroyQ` | kernel/ipc/endpoint.c:183-246 | draining both queues of a dying endpoint keeps the queue invariant |
| `IpcPlaces.DirectTransferP` | kernel/ipc/message.c:154-222 | after a direct transfer every other thread has the reply state its place calls for, and the caller exactly its new wait |
| `IpcPlaces.SendP` | kernel/ipc/message.c:154-266 | a send or call leaves every thread with the reply state its place calls for, whatever its server has done |
| `IpcPlaces.RecvP` | kernel/ipc/message.c:279-391 | so does a receive |
| `IpcPlaces.ResumeP` | kernel/ipc/message.c:244-266 | so does a thread after its sleep |
| `IpcPlaces.ReplyP` | kernel/ipc/message.c:490-544 | so does a reply, also to a caller that no longer waits for it |
| `IpcPlaces.ExitP` | kernel/ipc/message.c:571-606 | so does an exit; an exiting thread has no server |
| `IpcPlaces.DestroyP` | kernel/ipc/endpoint.c:183-246 | so does destroying an endpoint |
| `IpcLinks.LinkIffFree` | kernel/ipc/message.c:131-139 | linking a fresh caller keeps every debt owed to a waiting caller, and leaves no caller unserved exactly when the server owed nobody |
| `IpcLinks.DirectTransferL` | kernel/ipc/message.c:154-222 | the same for a direct transfer: links survive exactly when it is no call or the receiver owes nobody |
| `IpcLinks.TakeSenderL` | kernel/ipc/message.c:279-391 | the same for taking a queued sender |
| `IpcLinks.ResumeL` | kernel/ipc/message.c:408-476 | finishing a wait changes neither debts nor links |
| `IpcLinks.ReplyL` | kernel/ipc/message.c:490-544 | a reply keeps debts and links |
| `IpcLinks.ExitL` | kernel/ipc/message.c:571-606 | an exit keeps debts and links: a thread that exits waits for nobody, so only its own caller has to be told |
| `IpcLinks.DestroyL` | kernel/ipc/endpoint.c:183-246 | destroying an endpoint changes neither |
| `IpcLinks.ForkIffFree` | kernel/proc/process.c:681-831 | copying the parent's thread record keeps debts, and links, exactly when the parent owes nobody a reply |
| `IpcLinks.WakeL` | kernel/sched/core.c:352-370 | a wakeup changes neither |
| `IpcSteps.StepQ` | kernel/ipc/message.c:154-606 | every step of every run keeps the queue invariant, also when callers and servers have lost each other |
| `IpcSteps.StepP` | kernel/ipc/message.c:154-606 | every step of every run keeps the reply state of every thread in line with its place |
| `IpcSteps.DebtsSurviveIff` | kernel/proc/process.c:681-831 | a step leaves every debt owed to a live, waiting caller if and only if it is not the fork of a thread that owes a reply |
| `IpcSteps.DisciplineIsExact` | kernel/ipc/message.c:131-139 | callers and servers stay linked if and only if the step is disciplined: a call handed to a server that owes a reply, or a fork by one that does, always breaks them |
| `IpcBook.DirectBook` | kernel/ipc/message.c:154-222 | the history after a direct transfer: one more match, the results recorded for both sides, everything in progress accounted for |
| `IpcBook.TakeBook` | kernel/ipc/message.c:279-356 | the same for taking a queued sender |
| `IpcBook.StepBook` | kernel/ipc/message.c:154-606 | every step of every run keeps the history of sends and receives in agreement with the kernel state |
| `IpcOrder.StepOrder` | kernel/ipc/message.c:154-391 | every step of every run keeps matches in start order and the counters of an endpoint equal to its matches |
| `IpcAnswers.DirectAnswers` | kernel/ipc/message.c:408-476 | a call delivered is open, and its caller waits for the thread that received it |
| `IpcAnswers.AnswerAnswers` | kernel/ipc/message.c:490-606 | answering a waiting caller, by reply or exit, records the answer of the thread that received the call |
| `IpcAnswers.ResumeAnswers` | kernel/ipc/message.c:408-476 | a call that returns returns the answer recorded for it |
| `IpcAnswers.StepAnswers` | kernel/ipc/message.c:408-606 | every step keeps answers right as long as debts are owed to waiting callers, also when a server has taken a second call |
| `IpcRuns.StepSound` | kernel/ipc/message.c:154-606 | every step of every run keeps queues, places, history, order and counts |
| `IpcRuns.StepFair` | kernel/ipc/message.c:154-606 | every step that is not the fork of a debtor also keeps debts and answers |
| `IpcRuns.StepGood` | kernel/ipc/message.c:154-606 | every disciplined step also keeps the links |
| `IpcRuns.BootGood` | kernel/ipc/message.c:79-85 | the machine before the first thread satisfies all of them |
| `IpcRuns.StepExtends` | kernel/ipc/message.c:154-606 | no step of any run changes a partner, result or answer already recorded |
| `IpcRuns.RunSound` | kernel/ipc/message.c:154-606 | every run keeps queues, places, matching, order and counts, and never rewrites what it has recorded |
| `IpcRuns.RunFair` | kernel/ipc/message.c:154-606 | every run in which no debtor forks keeps debts owed to waiting callers, and answers right |
| `IpcRuns.RunGood` | kernel/ipc/message.c:154-606 | every disciplined run keeps callers and servers linked |
| `IpcRuns.PendingIffOneServer` | kernel/ipc/message.c:131-139 | a caller is owed a reply if and only if exactly one live thread points back at it |
| `IpcRuns.CallStatus` | kernel/ipc/message.c:408-544 | unless a debtor forked: a received call is unanswered, with its caller inside it and (in disciplined runs) its receiver alive and pointing back, or it was answered by that receiver, and then it returns exactly that answer |
| `IpcRuns.AnswerComesFromServer` | kernel/ipc/message.c:490-606 | unless a debtor forked: an answer appears only when the thread that received the call replies or exits |
| `IpcRuns.SendsMatchReceives` | kernel/ipc/message.c:154-391 | in every run: a send returned OK exactly when it was matched with one receive on its endpoint that got the same tag and registers; the matching is one to one and in start order |
| `IpcRuns.ReceivesMatchSends` | kernel/ipc/message.c:279-391 | in every run: a receive returned OK exactly when it was matched, and then with the sender's message |
| `IpcRuns.ReceivedIsRecorded` | kernel/ipc/message.c:279-391 | in every run the message a receive returns is the one recorded for it |
| `IpcRuns.SleepersAreAwaited` | kernel/ipc/message.c:224-476 | in every run a thread asleep in a send or receive is on its live endpoint's queue with nobody opposite; one asleep for a reply is owed one, by a live server pointing back while links hold |
| `IpcRuns.SecondCallOrphansFirst` | kernel/ipc/message.c:131-139 | every call handed to a server that still owes a reply leaves an earlier caller alive, waiting, and with no server at all |
| `IpcRuns.SecondRecvOrphansFirst` | kernel/ipc/message.c:131-139 | so does every queued call received by a server that still owes a reply |
| `IpcRuns.ForkedDebtAnswersWrong` | kernel/proc/process.c:681-831 | every fork by a debtor lets the child answer a call that its parent received |
| `IpcDebtors.RunSnoc` | kernel/ipc/message.c:154-606 | a run with one more step is that step after the run |
| `IpcDebtors.InDebt` | kernel/ipc/message.c:154-476 | a disciplined run from boot: endpoint, three threads, receive, call, return; the server owes thread 1 a reply |
| `IpcDebtors.OrphanRun` | kernel/ipc/message.c:131-139 | a run from boot in which the server receives again and is called again: the first caller is alive, asleep and owed a reply by nobody |
| `IpcDebtors.ForkRun` | kernel/proc/process.c:681-831 | a run from boot in which the server forks and the child replies: the answer is not the receiver's |
| `IpcObject.MessageKernel.constructor` | kernel/ipc/message.c:79-85 | the empty machine |
| `IpcObject.MessageKernel.Wakeup` | kernel/sched/core.c:352-370 | refines Wake |
| `IpcObject.MessageKernel.LinkCall` | kernel/ipc/message.c:131-139 | refines the linking of caller and server |
| `IpcObject.MessageKernel.CopyWindow` | kernel/ipc/message.c:38-74 | the error code and the copied window bytes are those of the slice functions; an error copies nothing |
| `IpcObject.MessageKernel.HandOver` | kernel/ipc/message.c:177-222 | refines the transfer to the first waiting receiver |
| `IpcObject.MessageKernel.SendOp` | kernel/ipc/message.c:154-266 | refines SendOp on every branch |
| `IpcObject.MessageKernel.Recv` | kernel/ipc/message.c:279-391 | refines Recv on every branch |
| `IpcObject.MessageKernel.AwaitReply` | kernel/ipc/message.c:447-476 | one round of the reply wait |
| `IpcObject.MessageKernel.FinishCall` | kernel/ipc/message.c:408-476 | the tail of a call after its send |
| `IpcObject.MessageKernel.Call` | kernel/ipc/message.c:408-476 | refines Call |
| `IpcObject.MessageKernel.Reply` | kernel/ipc/message.c:490-544 | refines Reply, including the reply nobody waits for |
| `IpcObject.MessageKernel.ReleaseCaller` | kernel/ipc/message.c:571-606 | failing the caller this thread owes |
| `IpcObject.MessageKernel.ForgetServer` | kernel/ipc/message.c:571-606 | making the server this thread waits on forget it |
| `IpcObject.MessageKernel.ThreadCleanup` | kernel/ipc/message.c:571-606 | both halves of the cleanup, on every branch |
| `IpcObject.MessageKernel.Destroy` | kernel/ipc/endpoint.c:183-227 | both drain loops refine Destroy |
| `IpcObject.MessageKernel.Resume` | kernel/ipc/message.c:244-266 | refines Resume |
| `EndpointLife.PublishInv` | kernel/ipc/endpoint.c:96-140 | a new endpoint keeps the reference books if and only if its creation flags do not already contain DEAD |
| `EndpointLife.RefInv` | kernel/ipc/endpoint.c:288-323 | taking and dropping a reference keep every count exact |
| `EndpointLife.WaitInv` | kernel/ipc/message.c:224-266 | threads starting or ending a wait under their own reference keep the books |
| `EndpointLife.DestroyLists` | kernel/ipc/endpoint.c:183-246 | destruction removes the endpoint from the global list and its owner's list and nothing else from either |
| `EndpointLife.DestroyInv` | kernel/ipc/endpoint.c:183-246 | destruction leaves the endpoint dead and keeps the books, whoever holds references and also when it was dead before |
| `EndpointLife.PinInv` | kernel/ipc/endpoint.c:255-283 | pinning the first owned endpoint keeps the books |
| `EndpointRuns.DestroyFirstInv` | kernel/ipc/endpoint.c:255-283 | one turn of process teardown keeps the books; the pin keeps the endpoint allocated until the turn's own release |
| `EndpointRuns.DestroyOwnedSpec` | kernel/ipc/endpoint.c:255-283 | teardown destroys exactly the endpoints the process owned, changes no other endpoint and no reference, and empties its list |
| `EndpointRuns.StepInv` | kernel/ipc/endpoint.c:122-323 | every enabled step keeps every reference count exact |
| `EndpointRuns.FreedIsUnreachable` | kernel/ipc/endpoint.c:312-323 | a freed endpoint is on no list, no enabled step names it and no step changes its record |
| `EndpointRuns.DestroyReadIsSafeIff` | kernel/ipc/endpoint.c:229-246 | the id read after the list's reference is dropped is safe if and only if somebody else holds a reference |
| `EndpointRuns.SelfTestReadsFreed` | kernel/ipc/test.c:209-210 | the self-test's sequence: destroying an endpoint nobody else references frees it before that read |
| `EndpointRuns.BootInv` | kernel/ipc/endpoint.c:35-45 | the empty table satisfies the books and has distinct ids |
| `EndpointRuns.RunInv` | kernel/ipc/endpoint.c:122-323 | over every run counts stay exact and a freed record never changes again |
| `EndpointRuns.Lifetime` | kernel/ipc/endpoint.c:122-323 | from boot: a count is the list's reference plus the outstanding ones; an endpoint is freed exactly when dead with none outstanding, and then unlisted and without waiters |
| `EndpointRuns.CreateDistinctIff` | kernel/ipc/endpoint.c:35-45 | a dynamic creation keeps live ids distinct exactly when no live endpoint has the id it takes |
| `EndpointRuns.CounterAdvances` | kernel/ipc/endpoint.c:35-45 | creations that find no memory advance the id counter and change nothing else |
| `EndpointRuns.IdRepeats` | kernel/ipc/endpoint.c:35-45 | a run from boot, one endpoint kept while the counter comes round: the next endpoint has the first one's id |
| `EndpointRuns.ClaimDistinct` | kernel/ipc/endpoint.c:150-176 | claiming a well-known id never duplicates a live id |
| `EndpointRuns.LiveIdsDistinct` | kernel/ipc/endpoint.c:35-176 | live ids are pairwise distinct in every run until the 32-bit id counter comes round |
| `EndpointRuns.GetSpec` | kernel/ipc/endpoint.c:288-307 | a lookup returns a live endpoint with the id, and does so whenever one exists |
| `EndpointObject.EndpointTable.constructor` | kernel/ipc/endpoint.c:20-45 | the empty table |
| `EndpointObject.EndpointTable.NextId` | kernel/ipc/endpoint.c:35-45 | the wrapping counter that skips the reserved ids |
| `EndpointObject.EndpointTable.FindLocked` | kernel/ipc/endpoint.c:81-91 | the list walk returns the first live entry with the id, or none exactly when there is none |
| `EndpointObject.EndpointTable.PublishNew` | kernel/ipc/endpoint.c:96-117 | refines the initialisation and publication of a new endpoint |
| `EndpointObject.EndpointTable.CreateDynamic` | kernel/ipc/endpoint.c:122-140 | refines creation, out of memory included |
| `EndpointObject.EndpointTable.Claim` | kernel/ipc/endpoint.c:150-176 | refines the claim of a well-known id |
| `EndpointObject.EndpointTable.Lookup` | kernel/ipc/endpoint.c:288-307 | refines the lookup, which takes a reference |
| `EndpointObject.EndpointTable.Release` | kernel/ipc/endpoint.c:312-323 | refines the release, which frees at zero |
| `EndpointObject.EndpointTable.DestroyOne` | kernel/ipc/endpoint.c:183-246 | refines destruction |
| `EndpointObject.EndpointTable.DestroyFirstOwned` | kernel/ipc/endpoint.c:255-283 | one turn of teardown |
| `EndpointObject.EndpointTable.DestroyAllOwned` | kernel/ipc/endpoint.c:255-283 | the whole teardown loop, which terminates and refines DestroyOwned |
| `SleepWake.WakeupInv` | kernel/sched/core.c:352-370 | a wakeup never breaks the sleep/wake invariant, whatever state its target is in |
| `SleepWake.PostInv` | kernel/ipc/message.c:531-539 | posting a reply clears the flag of a thread that is awake at the end of the lock section |
| `SleepWake.ArmInv` | kernel/proc/process.c:836-898 | a thread arms the child wait only when it saw no finished child under the lock |
| `SleepWake.ScanInv` | kernel/proc/process.c:836-898 | the scan for a zombie, with reaping, keeps the invariant |
| `SleepWake.ExitWakeupInv` | kernel/proc/process.c:561-606 | the exit wakeup reaches every sleeper of the parent, and no other process has this child |
| `SleepWake.StepInv` | kernel/sched/core.c:268-300 | every lock section, of any thread, keeps the invariant |
| `SleepWake.BootInv` | kernel/sched/core.c:623-650 | the first thread alone satisfies it |
| `SleepWake.RunInv` | kernel/sched/core.c:268-370 | every interleaving of lock sections keeps it |
| `SleepWake.NoLostReply` | kernel/ipc/message.c:447-460 | after any interleaving a thread asleep in the reply wait has no reply posted, and one whose reply is posted can run |
| `SleepWake.NoLostExit` | kernel/proc/process.c:836-898 | after any interleaving a thread asleep in the child wait has no zombie child that has finished its exit wakeup |
| `SleepWake.RunnableIsQueued` | kernel/sched/core.c:134-165 | whoever can run is executing or on the run queue |
| `SleepWake.SleepLostIff` | kernel/ipc/message.c:236-248 | blocking sends and receives mark themselves asleep after releasing their lock: a step strands a thread if and only if it is that thread falling asleep after its partner has come |
| `SleepWake.StepTidy` | kernel/ipc/message.c:366-375 | a step that does not switch between a thread's queueing and its falling asleep leaves nobody stranded |
| `SleepWake.NoLostPartner` | kernel/ipc/message.c:366-375 | over every run without such a switch, as on this kernel's one CPU, no blocking send or receive is left asleep after its partner has come |
| `SleepWake.PreemptedBetween` | kernel/ipc/message.c:236-248 | the first part of a failing run, with a switch this kernel does not make: queued, lock released, switched out |
| `SleepWake.PartnerComes` | kernel/ipc/message.c:279-356 | the second part: the partner comes, and its wakeup ignores a running thread |
| `SleepWake.SleepCanBeLost` | kernel/ipc/message.c:236-248 | the run ends with the thread, sender or receiver, asleep after its partner has come |
| `Paging.AddTableKeeps` | kernel/arch/x86_64/mm/paging.c:74-141 | installing an empty table changes no translation of any address space |
| `Paging.EnsureSpec` | kernel/arch/x86_64/mm/paging.c:74-141 | the walk changes no translation; it fails exactly when a huge page is in the way or the missing tables outnumber the free frames |
| `Paging.LeafUnique` | kernel/arch/x86_64/mm/paging.c:74-141 | a level-1 table is reached along one path only, except through the shared kernel half |
| `Paging.SetEntryTrans` | kernel/arch/x86_64/mm/paging.c:154-171 | writing a level-1 entry changes exactly the walks that end at that entry |
| `Paging.TransIsLeaf` | kernel/arch/x86_64/mm/paging.c:146-149 | the hardware walk agrees with the level-1 entry unless a huge page covers the address |
| `PagingOps.AliasIsKernel` | kernel/arch/x86_64/mm/paging.c:241-258 | two address spaces share top-level entries in the kernel half only |
| `PagingOps.MapSpec` | kernel/arch/x86_64/mm/paging.c:154-171 | refines an update of the flat map at one page, in this space and those sharing the kernel entry, and nowhere else; a failure, characterised exactly, changes no translation |
| `PagingOps.UnmapSpec` | kernel/arch/x86_64/mm/paging.c:176-187 | removes exactly that page's translation unless a huge page provides it |
| `PagingOps.GetPhysSpec` | kernel/arch/x86_64/mm/paging.c:227-235 | the software lookup gives the processor's answer except for huge pages, which it denies |
| `PagingOps.MapFromSpec` | kernel/arch/x86_64/mm/paging.c:192-208 | the mapping loop: every translation of every space after any number of turns |
| `PagingOps.UnmapFromSpec` | kernel/arch/x86_64/mm/paging.c:213-222 | the unmapping loop: every translation of every space after it |
| `PagingOps.MapRangeSpec` | kernel/arch/x86_64/mm/paging.c:192-208 | every translation after a range map: mapped on success, taken back as far as the rollback loop counts on failure; and when the loop never ends |
| `PagingOps.RolledBackIff` | kernel/arch/x86_64/mm/paging.c:192-208 | a failed range map restores every translation of every space exactly when none of the pages it got to was mapped, or, if the counter has wrapped and nothing is taken back, exactly when those pages were mapped to the same frames before |
| `PagingOps.LoopEndsIff` | kernel/arch/x86_64/mm/paging.c:192-222 | with its 64-bit counter a range loop visits exactly the pages of the range if and only if there are none or the address behind the last does not wrap; otherwise its test never fails |
| `PagingOps.CounterKey` | kernel/arch/x86_64/mm/paging.c:192-222 | the entry the counter selects, wrapped or not, is that of the page number, and repeats every 2^36 turns |
| `PagingOps.UndoneIs` | kernel/arch/x86_64/mm/paging.c:197-205 | the rollback loop makes as many turns as the map did, or none if the counter had wrapped |
| `PagingOps.KeyValue` | kernel/arch/x86_64/mm/paging.c:74-141 | the four indices are the low 36 bits of the page number |
| `PagingOps.KeysDistinct` | kernel/arch/x86_64/mm/paging.c:192-208 | within 2^36 pages no two pages of a range share an entry |
| `PagingOps.MappedRange` | kernel/arch/x86_64/mm/paging.c:192-208 | a successful range map of up to 2^48 bytes maps page p to frame number frame + p, as far as the entry holds it: 40 bits |
| `PagingNeed.EnsureAbsent` | kernel/arch/x86_64/mm/paging.c:74-141 | once its path is made, a key's missing tables are missing for no key of the space |
| `PagingNeed.MapAbsent` | kernel/arch/x86_64/mm/paging.c:154-171 | a page mapped takes exactly as many frames as its path missed tables; it fails exactly for huge pages or too few frames |
| `PagingNeed.NeedRest` | kernel/arch/x86_64/mm/paging.c:192-208 | the distinct tables a range misses are those of its first page and those the rest misses afterwards |
| `PagingNeed.MapFromStops` | kernel/arch/x86_64/mm/paging.c:192-208 | the loop stops at the first page that a huge page covers or for which the distinct missing tables so far outnumber the free frames, both told from the state before |
| `PagingNeed.RangeSpec` | kernel/arch/x86_64/mm/paging.c:192-208 | a range map succeeds exactly when its counter does not wrap and no page of it stops, never ends exactly when it wraps and no page ever stops; every translation of every space after it, from the state before |
| `PagingNeed.NeedCap` | kernel/arch/x86_64/mm/paging.c:192-208 | a loop that runs on needs no further table after 2^36 turns |
| `PagingNeed.FailedRangeRestoresIff` | kernel/arch/x86_64/mm/paging.c:192-208 | the same condition for restoring everything, with the page that fails told from the state before |
| `PagingNeed.MappingLost` | kernel/arch/x86_64/mm/paging.c:192-208 | a range of 513 pages over a mapped page with no free frame: the mapping is lost |
| `PagingNeed.TopPageStays` | kernel/arch/x86_64/mm/paging.c:192-208 | the last page of the address space asked for, with frames for its tables only: the loop goes on at address 0, fails there, takes nothing back, and the page stays mapped |
| `PagingTree.CreateSpec` | kernel/arch/x86_64/mm/paging.c:241-258 | a new space maps nothing in the user half, translates the kernel half as the kernel does, and changes no other space |
| `PagingTree.UnderUnique` | kernel/arch/x86_64/mm/paging.c:263-290 | below the top level the tables form a forest |
| `PagingTree.FreedInIff` | kernel/arch/x86_64/mm/paging.c:263-290 | the nested loops free exactly the tables below |
| `PagingTree.FreedInOnce` | kernel/arch/x86_64/mm/paging.c:263-290 | no table is freed twice |
| `PagingTree.FreedIff` | kernel/arch/x86_64/mm/paging.c:263-290 | what is freed is the top level and the tables below its user half |
| `PagingTree.StaysClear` | kernel/arch/x86_64/mm/paging.c:263-290 | no table that stays points to one that goes |
| `PagingTree.DestroyWf` | kernel/arch/x86_64/mm/paging.c:263-290 | what remains is well formed |
| `PagingTree.DestroySpec` | kernel/arch/x86_64/mm/paging.c:263-290 | destruction frees each user-half table and the top level exactly once and leaves every translation of every other space as it was |
| `PagingRuns.MapStep` | kernel/arch/x86_64/mm/paging.c:154-171 | a map keeps the simulation with the flat map |
| `PagingRuns.UnmapStep` | kernel/arch/x86_64/mm/paging.c:176-187 | an unmap keeps the simulation |
| `PagingRuns.CreateStep` | kernel/arch/x86_64/mm/paging.c:241-258 | a creation keeps the simulation |
| `PagingRuns.DestroyStep` | kernel/arch/x86_64/mm/paging.c:263-290 | a destruction keeps the simulation |
| `PagingRuns.StepSim` | kernel/arch/x86_64/mm/paging.c:154-290 | each operation keeps the simulation between the tables and the flat map |
| `PagingRuns.RunRefinesFlat` | kernel/arch/x86_64/mm/paging.c:154-290 | after any run over any number of spaces, every user page of every space translates as in the flat map holding only the operations that succeeded |
| `PagingObject.PageTables.AllocTable` | kernel/arch/x86_64/mm/paging.c:53-60 | takes a frame and zeroes it, or fails when there is none |
| `PagingObject.PageTables.FreeTable` | kernel/arch/x86_64/mm/paging.c:65-68 | returns a table to the pool |
| `PagingObject.PageTables.Write` | kernel/arch/x86_64/mm/paging.c:154-171 | one entry written in place |
| `PagingObject.PageTables.NextTable` | kernel/arch/x86_64/mm/paging.c:74-141 | one level of the walk |
| `PagingObject.PageTables.FindLeaf` | kernel/arch/x86_64/mm/paging.c:74-141 | refines the whole walk with creation |
| `PagingObject.PageTables.MapPage` | kernel/arch/x86_64/mm/paging.c:154-171 | refines Map |
| `PagingObject.PageTables.UnmapPage` | kernel/arch/x86_64/mm/paging.c:176-187 | refines Unmap |
| `PagingObject.PageTables.PhysOf` | kernel/arch/x86_64/mm/paging.c:227-235 | refines GetPhys |
| `PagingObject.PageTables.MapPages` | kernel/arch/x86_64/mm/paging.c:192-208 | the loop with its 64-bit counter refines MapRange; it gives up, with no result, exactly where the code never ends |
| `PagingObject.PageTables.UnmapBelow` | kernel/arch/x86_64/mm/paging.c:200-203 | the rollback loop |
| `PagingObject.PageTables.UnmapPages` | kernel/arch/x86_64/mm/paging.c:213-222 | the loop with its 64-bit counter refines UnmapRange, and says where the code never ends |
| `PagingObject.PageTables.CreateTop` | kernel/arch/x86_64/mm/paging.c:241-258 | the copying loop refines Create |
| `PagingObject.PageTables.FreeLeaves` | kernel/arch/x86_64/mm/paging.c:263-290 | the innermost loop of destruction |
| `PagingObject.PageTables.FreeDirectories` | kernel/arch/x86_64/mm/paging.c:263-290 | the middle loop of destruction |
| `PagingObject.PageTables.DestroyTop` | kernel/arch/x86_64/mm/paging.c:263-290 | the three nested loops refine Destroy |
| `Vma.FlagsAtIff` | kernel/mm/vmm.c:112-127 | an address has flags exactly when some area contains it |
| `Vma.FindSpec` | kernel/mm/vmm.c:112-127 | stopping early on a sorted list loses nothing: the area found is the one containing the address, and none is found exactly when none does |
| `Vma.IntersectIff` | kernel/mm/vmm.c:132-147 | the early exit agrees with asking every area |
| `Vma.IntersectAddresses` | kernel/mm/vmm.c:132-147 | for a non-empty range it agrees with asking every address |
| `Vma.InsertOk` | kernel/mm/vmm.c:152-166 | inserting a region that meets no area keeps the list sorted and disjoint |
| `Vma.InsertFlags` | kernel/mm/vmm.c:152-166 | it adds exactly the region's own addresses |
| `Vma.InsertOkIff` | kernel/mm/vmm.c:253-302 | the list part of mapping keeps the list well formed if and only if the region is not empty and does not wrap |
| `Vma.RemoveWithin` | kernel/mm/vmm.c:307-373 | the unmap walk keeps the list sorted, disjoint and non-empty per area |
| `Vma.RemoveFlags` | kernel/mm/vmm.c:307-373 | unmapping is restriction of the address map to outside the range |
| `Vma.RemoveSpec` | kernel/mm/vmm.c:307-373 | a non-empty unmap gives exactly that restriction if and only if the split it may need can be allocated |
| `Vma.RefusedSplit` | kernel/mm/vmm.c:307-373 | a hole in the middle of an area when the second half cannot be allocated: the area stays whole |
| `Vma.RemoveEmpty` | kernel/mm/vmm.c:307-373 | an empty range removes nothing, though it may cut an area in two |
| `Vma.RemoveWrapped` | kernel/mm/vmm.c:307-373 | a range whose end wraps breaks the list exactly when an area spans it backwards and the split succeeds |
| `VmaObject.AreaList.constructor` | kernel/mm/vmm.c:171-208 | the empty list |
| `VmaObject.AreaList.FindArea` | kernel/mm/vmm.c:112-127 | the walk refines Find |
| `VmaObject.AreaList.Intersects` | kernel/mm/vmm.c:132-147 | the walk refines Intersect |
| `VmaObject.AreaList.InsertArea` | kernel/mm/vmm.c:152-166 | the walk refines Insert |
| `VmaObject.AreaList.Trim` | kernel/mm/vmm.c:307-373 | what one area becomes |
| `VmaObject.AreaList.RemoveRange` | kernel/mm/vmm.c:307-373 | the walk, stepping over the area it inserts, refines Remove |
| `VmaObject.AreaList.ValidateRange` | kernel/mm/uaccess.c:15-79 | succeeds exactly when every byte of the range is user memory in an area with the required flags |
| `VmaObject.AreaList.CopyString` | kernel/mm/uaccess.c:117-137 | each result if and only if: the string when its first NUL lies within the buffer and every byte up to it is readable, a fault at an unreadable byte before that, too long when all bytes are readable and none is NUL |
| `VmPages.MapNewPage` | kernel/mm/vmm.c:253-302 | mapping a fresh frame: what one page of one space shows afterwards |
| `VmPages.MapNewInv` | kernel/mm/vmm.c:253-302 | it keeps isolation: every mapped frame is at one page of one space, not free and not a table |
| `VmPages.FreeAtPage` | kernel/mm/vmm.c:307-373 | freeing the frame behind a page: what one page of one space shows afterwards |
| `VmPages.FreeAtInv` | kernel/mm/vmm.c:307-373 | it keeps isolation: a freed frame is mapped nowhere else |
| `VmPages.FreeKeysSpec` | kernel/mm/vmm.c:307-373 | the page loop takes away exactly the listed pages of this space |
| `VmPages.MapZeroedSpec` | kernel/mm/vmm.c:253-302 | the populate loop gives each page it reached a zeroed fresh frame and leaves every other page of every space alone |
| `VmPages.CopyKeysSpec` | kernel/mm/vmm.c:496-563 | the clone loop copies flags and bytes of every present page and changes no other space |
| `VmRecords.PopInv` | kernel/mm/vmm.c:59-76 | a record takes a frame out of the pool: it is then neither free, nor a table, nor mapped, and nothing else changes |
| `VmRecords.PushInv` | kernel/mm/vmm.c:81-88 | freeing a record returns its frame |
| `VmRecords.FreeKeysPool` | kernel/mm/vmm.c:328-339 | after a page loop a frame is free exactly when one was before or some page of the loop was mapped |
| `VmRecords.MapZeroedOff` | kernel/mm/vmm.c:274-298 | the populate loop touches no frame behind a record |
| `VmRecords.CopyKeysOff` | kernel/mm/vmm.c:517-549 | the clone loop touches no frame behind a record |
| `Vmm.PagesDiffer` | kernel/mm/vmm.c:253-302 | below 2^47 an entry belongs to one page |
| `Vmm.AreaKeysIff` | kernel/mm/vmm.c:253-373 | a page is among an area list's pages exactly when the list has its address |
| `Vmm.AreaKeysDistinct` | kernel/mm/vmm.c:213-248 | no page of an area list is visited twice |
| `VmSpaces.UnmapPages` | kernel/mm/vmm.c:307-373 | a page-aligned unmap takes away exactly the pages of the range that some area has, in this space only |
| `VmSpaces.UnmapOk` | kernel/mm/vmm.c:307-373 | an unmap keeps every list well formed, every frame isolated and every area with a record of its own; the list part is the list operation, with the room for a split told from the state before |
| `VmSpaces.UnmapAddresses` | kernel/mm/vmm.c:328-367 | an unmap makes the address map exactly the old one outside the range if and only if no area is cut in two, or a frame is free, or a page of the range was mapped, which is freed before the frame is needed |
| `VmSpaces.WalkInv` | kernel/mm/vmm.c:307-373 | after the walk, which frees records of areas that go and takes a frame for the record of a second half, every area left has a record in a frame of its own |
| `VmSpaces.WalkOff` | kernel/mm/vmm.c:307-373 | a frame behind any other record stays behind it |
| `VmSpaces.WalkPage` | kernel/mm/vmm.c:307-373 | what one page of one space shows after the walk |
| `VmSpaces.WalkAreas` | kernel/mm/vmm.c:307-373 | what the walk leaves of the areas is the list operation |
| `VmNeed.MapNewTakes` | kernel/mm/vmm.c:253-302 | a new page takes its own frame and one for each missing table, and fails exactly when there are fewer |
| `VmNeed.MapZeroedStops` | kernel/mm/vmm.c:253-302 | populating stops at the first page for which the pages so far and their distinct missing tables outnumber the free frames |
| `VmNeed.MapZeroedTakes` | kernel/mm/vmm.c:274-298 | populating to the end takes a frame for each page and each missing table |
| `VmRegions.PlaceSpec` | kernel/mm/vmm.c:152-166 | the new area is linked in at this place, and its record with it |
| `VmRegions.NewAreaOk` | kernel/mm/vmm.c:262-272 | a new area has a record in a frame of its own and changes no page |
| `VmRegions.TrimInserted` | kernel/mm/vmm.c:253-302 | unmapping the populated front of a just inserted area is inserting the rest of it |
| `VmRegions.MapRegionAreas` | kernel/mm/vmm.c:253-302 | the area list after a region map on every outcome, told from the state before: unchanged without a frame for the record, one area more on success, and with too few frames the part of the area without pages stays behind, all of it if the first page fails |
| `VmRegions.MapRegionIff` | kernel/mm/vmm.c:253-302 | a region map succeeds if and only if it meets no area and the pool has a frame for the record, for each page and for each missing table |
| `VmRegions.MapRegionTakes` | kernel/mm/vmm.c:253-302 | and then it takes exactly those |
| `VmRegions.MapRegionPages` | kernel/mm/vmm.c:253-302 | the pages after a region map: zeroed fresh frames with the area's permissions on success, none left on failure, every other page of every space as before |
| `VmShortage.AreaLeftBehind` | kernel/mm/vmm.c:253-302 | two pages mapped into an empty space, for every number of free frames: none, nothing happens; one to four, the whole area stays without pages; five, its second page stays; six, success |
| `VmShortage.HoleNotCut` | kernel/mm/vmm.c:328-367 | no free frame and no page in the hole: the area is not cut |
| `VmLife.CreateSpaceSpec` | kernel/mm/vmm.c:171-208 | a new space needs two frames, for its structure and its top table; it has no user page and leaves every other space alone; with fewer nothing changes |
| `VmLife.RootInv` | kernel/arch/x86_64/mm/paging.c:241-258 | a new top table keeps isolation and touches no frame behind a record |
| `VmLife.ReturnedOnce` | kernel/mm/vmm.c:213-248 | destruction frees no frame that is free already, is a table, or comes twice |
| `VmLife.FreeSpaceSpec` | kernel/mm/vmm.c:213-248 | it returns the space's frames, records, tables and structure, keeps isolation among the remaining spaces and touches none of them |
| `VmLife.DestroySpaceOk` | kernel/mm/vmm.c:213-248 | it keeps every list, record and frame of the others in order |
| `VmLife.DestroyKeepsOthers` | kernel/mm/vmm.c:213-248 | every page, list and byte of every other space is as before |
| `VmClone.CloneAreaOk` | kernel/mm/vmm.c:505-553 | cloning one area keeps everything in order, whether it succeeds, finds no frame for the record, or fails among the pages and gives the record back |
| `VmClone.CloneAreasInv` | kernel/mm/vmm.c:505-553 | however far the clone gets, every space but the new one is as before; on success the area lists are equal |
| `VmClone.CloneAreasPage` | kernel/mm/vmm.c:505-553 | after the areas are cloned the child shows a copy of exactly the pages that the parent has in them |
| `VmClone.CloneChild` | kernel/mm/vmm.c:496-563 | a successful clone gives the child the parent's areas under records of its own and, for each page the parent has there, a page with equal flags and bytes in a frame that was free; and no other page |
| `VmClone.CloneFramesFresh` | kernel/mm/vmm.c:496-563 | different pages of the child are different frames, none of them a frame of any other space |
| `VmClone.CloneKeepsOthers` | kernel/mm/vmm.c:496-563 | successful or not, every page of every existing space keeps its frame, flags and bytes |
| `VmClone.StepOk` | kernel/mm/vmm.c:171-563 | every operation keeps lists well formed, records apart and frames isolated |
| `VmClone.RunIsolated` | kernel/mm/vmm.c:171-563 | after any run of creations, maps, unmaps, clones and destructions, failures included: every mapped user frame is at one page of one space, is not free and is not a page table, and every area list is sorted, disjoint and non-empty per area |
| `VmClone.RunRecords` | kernel/mm/vmm.c:59-563 | and the frame of every area record and every structure is behind that one only: not free, no table, mapped nowhere in user memory |
| `VmConserve.MapNewOn` | kernel/mm/vmm.c:274-298 | a page mapped where none was: frames only move between free, table and mapped |
| `VmConserve.FreeAtOn` | kernel/mm/vmm.c:328-339 | a page freed: likewise |
| `VmConserve.WalkSpare` | kernel/mm/vmm.c:307-373 | an unmap frees what it stops using and takes only what is free |
| `VmFrames.MapLoses` | kernel/mm/vmm.c:253-302 | a region map, failed or not, loses no frame |
| `VmFrames.UnmapLoses` | kernel/mm/vmm.c:307-373 | an unmap loses no frame |
| `VmFrames.CreateLoses` | kernel/mm/vmm.c:171-208 | a creation, failed or not, loses no frame |
| `VmFrames.DestroyLoses` | kernel/mm/vmm.c:213-248 | a destruction loses exactly the frames that the space has mapped outside its areas |
| `VmFrames.CloneLoses` | kernel/mm/vmm.c:496-563 | a clone loses exactly the copies made for the area at which it failed |
| `VmFrames.RemoveCovers` | kernel/mm/vmm.c:307-373 | an address outside the range that some area has stays in an area, split or not |
| `VmFrames.StepLoses` | kernel/mm/vmm.c:171-563 | every operation keeps every mapped page inside an area and loses exactly what a failed clone strands |
| `VmFrames.RunConserves` | kernel/mm/vmm.c:171-563 | over every run, failures included, every frame is accounted for: it is free, a table, behind a record or mapped, but for the copies that failed clones strand |
| `VmDemand.CopyTakes` | kernel/mm/vmm.c:517-549 | copying pages succeeds exactly when the pool has a frame for each and for each table missing, and takes exactly those |
| `VmDemand.CopyStarts` | kernel/mm/vmm.c:517-549 | it leaves a page mapped exactly when the first page there is to copy can be |
| `VmDemand.AreaTakes` | kernel/mm/vmm.c:505-553 | an area is cloned exactly when the pool has frames for its record, its pages and their missing tables |
| `VmDemand.CloneAreasTake` | kernel/mm/vmm.c:505-553 | the same for the whole list |
| `VmDemand.CloneAreasBreak` | kernel/mm/vmm.c:505-553 | pages are left outside the child's areas exactly when the pool breaks in the middle of some area |
| `VmDemand.CloneIff` | kernel/mm/vmm.c:496-563 | a clone succeeds if and only if the pool has a frame for the structure, the top table, each area's record, each page the parent has and each table on the paths to them |
| `VmDemand.StrandsIff` | kernel/mm/vmm.c:496-563 | it strands a frame if and only if the pool lasts past the first page to copy of some area but not to its end |
| `VmDemand.CloneKeepsFramesIff` | kernel/mm/vmm.c:496-563 | a clone loses no frame if and only if that happens in no area |
| `VmShortage.CopyLost` | kernel/mm/vmm.c:496-563 | a space of two pages cloned, for every number of free frames: it succeeds with eight left, and with exactly seven the copy of the first page is lost |
| `VmObject.Spaces.constructor` | kernel/mm/vmm.c:40-54 | no spaces beside the kernel's |
| `VmObject.Spaces.NewPage` | kernel/mm/vmm.c:270-298 | one turn of the page loops: a frame mapped and filled, or the failure |
| `VmObject.Spaces.Present` | kernel/arch/x86_64/mm/paging.c:146-149 | the present test |
| `VmObject.Spaces.FreePage` | kernel/mm/vmm.c:307-373 | one turn of the unmap loops |
| `VmObject.Spaces.FreeRange` | kernel/mm/vmm.c:307-373 | the page loop over part of an area |
| `VmObject.Spaces.UnmapOverlap` | kernel/mm/vmm.c:324-365 | one overlapping area of an unmap: pages, then what becomes of the area and its record |
| `VmObject.Spaces.UnmapArea` | kernel/mm/vmm.c:307-373 | the whole unmap refines UnmapRegion on lists, records, tables and frames at once |
| `VmObject.Spaces.MapArea` | kernel/mm/vmm.c:253-302 | record, populate loop and rollback refine MapRegion |
| `VmObject.Spaces.CopyArea` | kernel/mm/vmm.c:496-563 | the page loop of a clone over one area |
| `VmObject.Spaces.CloneOne` | kernel/mm/vmm.c:505-553 | one area of a clone, its record returned when its pages cannot be copied |
| `VmObject.Spaces.ReturnFrames` | kernel/mm/vmm.c:213-248 | the page loop of destruction over one area |
| `VmObject.Spaces.ReturnAll` | kernel/mm/vmm.c:213-248 | the loop over the areas of a dying space: pages, then the record |
| `VmObject.Spaces.Destroy` | kernel/mm/vmm.c:213-248 | refines DestroySpace: areas, tables, structure |
| `VmObject.Spaces.NewSpace` | kernel/mm/vmm.c:171-208 | refines CreateSpace, the structure returned when there is no frame for the top table |
| `VmObject.Spaces.CloneSpace` | kernel/mm/vmm.c:496-563 | the clone loop refines Clone, failures included |
| `Sched.PutBit` | kernel/sched/core.c:41-49 | setting or clearing a bit changes that bit of the 192 and no other |
| `Sched.Ctz` | kernel/sched/core.c:52-61 | the lowest set bit of a word, or 64 |
| `Sched.Ffs` | kernel/sched/core.c:52-61 | the first non-zero word gives the lowest set bit of the whole bitmap |
| `Sched.LinkedIff` | kernel/sched/core.c:134-149 | a thread is linked if and only if it waits to run, and then on the queue of its priority |
| `Sched.EnqueueInv` | kernel/sched/core.c:134-149 | a thread enters the tail of its queue and the books are right for a system where it waits |
| `Sched.UnlinkInv` | kernel/sched/core.c:170-191 | a thread leaves its queue and the books are right for a system where it does not wait |
| `Sched.QuietInv` | kernel/sched/core.c:268-300 | a change that affects nobody's waiting keeps the books |
| `SchedRuns.FfsIsBest` | kernel/sched/core.c:52-61 | the bitmap search finds the best non-empty queue |
| `SchedRuns.PickInv` | kernel/sched/core.c:196-220 | picking keeps the books |
| `SchedRuns.ScheduleSpec` | kernel/sched/core.c:268-300 | picks the head of the highest-priority non-empty queue, the current thread put back first, and idles exactly when nobody waits |
| `SchedRuns.SetPriorityInv` | kernel/sched/core.c:375-405 | changing a priority, clamped, moves a queued thread and keeps the books |
| `SchedRuns.StepInv` | kernel/sched/core.c:154-405 | every step keeps queues, bitmap and count in agreement with the threads |
| `SchedRuns.BootInv` | kernel/sched/core.c:623-650 | the books hold after initialisation |
| `SchedRuns.RunInv` | kernel/sched/core.c:134-405 | in every run a thread is on the queue of its priority, once and on no other, exactly when it is started, can run, is not current and is not the idle thread; the bitmap marks exactly the non-empty queues and the count is their total length |
| `SchedRuns.ScheduleAdvances` | kernel/sched/core.c:268-300 | schedule picks the head of the best queue and moves every other thread of it exactly one place forward |
| `SchedRuns.OthersKeepPlace` | kernel/sched/core.c:134-405 | no other step moves a queued thread back |
| `SchedRuns.PickedInTurn` | kernel/sched/core.c:196-300 | the thread at position k of the best queue is picked within k + 1 calls of schedule, whatever happens in between, as long as nothing of higher priority becomes runnable |
| `SchedObject.Scheduler.constructor` | kernel/sched/core.c:623-650 | empty queues, a clear bitmap and the idle thread |
| `SchedObject.Scheduler.BitmapSet` | kernel/sched/core.c:41-44 | refines PutBit |
| `SchedObject.Scheduler.BitmapClear` | kernel/sched/core.c:46-49 | refines PutBit |
| `SchedObject.Scheduler.BitmapFfs` | kernel/sched/core.c:52-61 | the loop refines Ffs |
| `SchedObject.Scheduler.EnqueueLocked` | kernel/sched/core.c:134-149 | refines Enqueue |
| `SchedObject.Scheduler.AddThread` | kernel/sched/core.c:154-165 | refines the guarded enqueue |
| `SchedObject.Scheduler.UnlinkLocked` | kernel/sched/core.c:170-191 | refines Unlink |
| `SchedObject.Scheduler.PickNext` | kernel/sched/core.c:196-220 | refines Pick |
| `SchedObject.Scheduler.Reschedule` | kernel/sched/core.c:268-300 | refines Schedule |
| `SchedObject.Scheduler.WakeThread` | kernel/sched/core.c:352-370 | refines the wakeup |
| `SchedObject.Scheduler.StartThread` | kernel/proc/process.c:493-497 | refines the start of a thread |
| `SchedObject.Scheduler.ChangePriority` | kernel/sched/core.c:375-405 | refines SetPriority |
| `LibcHeap.CoalesceTiles` | lib/libc/src/stdlib.c:51-63 | merging keeps the blocks an exact tiling of the area |
| `LibcHeap.CoalesceView` | lib/libc/src/stdlib.c:51-63 | merging moves no live payload |
| `LibcHeap.CoalescePairs` | lib/libc/src/stdlib.c:51-63 | no two neighbouring blocks are left free |
| `LibcHeapOps.SpliceOk` | lib/libc/src/stdlib.c:38-49 | replacing blocks by others that tile the same bytes, and rewriting only those, keeps all other payloads |
| `LibcHeapOps.MallocSpec` | lib/libc/src/stdlib.c:195-221 | for every size: fails exactly for zero or when no free block has the rounded size; otherwise the pointer was not live, every live payload is untouched, and the payload covers the request if and only if rounding up does not wrap |
| `LibcHeapOps.AlignUpCoversIff` | lib/libc/src/stdlib.c:21-24 | rounding up covers the request if and only if adding 15 does not wrap |
| `LibcHeapOps.MallocWraps` | lib/libc/src/stdlib.c:195-221 | the largest request succeeds whenever any block is free, with a payload that is too small |
| `LibcHeapOps.MallocAlignedIff` | lib/libc/src/stdlib.c:195-221 | the pointer is 16-aligned if and only if the first fitting block starts 8 past a multiple of 16 |
| `LibcHeapOps.MallocWords` | lib/libc/src/stdlib.c:195-221 | allocation keeps every block at, and of, a multiple of eight bytes |
| `LibcHeapOps.CoalesceWords` | lib/libc/src/stdlib.c:51-63 | so does merging |
| `LibcHeapOps.FirstPointerNotAligned` | lib/libc/src/stdlib.c:26-36 | payloads follow a 24-byte header, so the first pointer of a fresh heap is not 16-byte aligned |
| `LibcHeapOps.LiveDisjoint` | lib/libc/src/stdlib.c:195-221 | live payloads overlap neither each other nor a header |
| `LibcHeapRuns.FreeSpec` | lib/libc/src/stdlib.c:223-234 | ends one payload, keeps every other, and leaves no two neighbours free |
| `LibcHeapRuns.ResizeSpec` | lib/libc/src/stdlib.c:258-300 | resizing in place keeps the common prefix where it was and every other payload |
| `LibcHeapRuns.MoveSpec` | lib/libc/src/stdlib.c:258-300 | moving copies the common prefix and keeps every other payload |
| `LibcHeapRuns.ReallocSpec` | lib/libc/src/stdlib.c:258-300 | for every size: keeps the common prefix and every other payload; fails exactly when the block cannot stay and no free block fits, and then nothing has changed; covers the new size if and only if rounding up does not wrap |
| `LibcHeapRuns.ReallocWords` | lib/libc/src/stdlib.c:258-300 | keeps every block at, and of, a multiple of eight bytes |
| `LibcHeapRuns.WriteView` | lib/libc/src/stdlib.c:195-221 | a program writing inside one live payload changes that payload only |
| `LibcHeapRuns.StepInv` | lib/libc/src/stdlib.c:195-300 | every step keeps the tiling, and one free block when nothing is live |
| `LibcHeapRuns.BootInv` | lib/libc/src/stdlib.c:26-36 | the initial heap satisfies it |
| `LibcHeapRuns.RunInv` | lib/libc/src/stdlib.c:195-300 | over every run, with any sizes, the blocks tile the area exactly, each at and of a multiple of eight bytes, and with nothing live they are one free block again |
| `LibcHeapRuns.StepKeeps` | lib/libc/src/stdlib.c:195-300 | a step that does not name a live pointer leaves its payload as it was |
| `LibcHeapRuns.RunKeeps` | lib/libc/src/stdlib.c:195-300 | over any run that never names it, a live payload stays live and keeps every byte |
| `LibcHeapObject.Arena.constructor` | lib/libc/src/stdlib.c:18-19 | the area before its first use: no block yet |
| `LibcHeapObject.Arena.WriteHeader` | lib/libc/src/stdlib.c:38-49 | a new header takes its 24 bytes from the payload |
| `LibcHeapObject.Arena.CoalesceBlocks` | lib/libc/src/stdlib.c:51-63 | the walk refines Coalesce |
| `LibcHeapObject.Arena.TakeBlock` | lib/libc/src/stdlib.c:38-49 | refines the split |
| `LibcHeapObject.Arena.FindFit` | lib/libc/src/stdlib.c:195-221 | the walk finds the first free block that is large enough |
| `LibcHeapObject.Arena.MallocBytes` | lib/libc/src/stdlib.c:195-221 | refines Malloc |
| `LibcHeapObject.Arena.FreeBytes` | lib/libc/src/stdlib.c:223-234 | refines Free |
| `LibcHeapObject.Arena.CopyBytes` | lib/libc/src/stdlib.c:258-300 | the byte copy between payloads that do not overlap |
| `LibcHeapObject.Arena.MoveBytes` | lib/libc/src/stdlib.c:258-300 | refines the moving half |
| `LibcHeapObject.Arena.ReallocBytes` | lib/libc/src/stdlib.c:258-300 | refines Realloc on every branch |
| `ExecStack.PutChunkSpec` | kernel/proc/exec.c:84-110 | one chunk changes exactly its own bytes |
| `ExecStack.WriteUserSpec` | kernel/proc/exec.c:84-110 | a successful write changes exactly the bytes of its range, across any number of pages |
| `ExecStack.WriteSees` | kernel/proc/exec.c:84-110 | the program then sees the bytes written, and still sees what lay above them |
| `ExecStack.WriteOkIff` | kernel/proc/exec.c:84-110 | a write succeeds exactly when every byte of its range is mapped |
| `ExecStack.LeRoundTrip` | kernel/proc/exec.c:112-116 | a 64-bit word read back from its little-endian bytes is the word stored |
| `ExecStack.PushStringsSpec` | kernel/proc/exec.c:250-323 | every string stands at its address below the stack pointer, and what stood above still does |
| `ExecStack.PushWordsSpec` | kernel/proc/exec.c:250-323 | every pushed word stands at its slot, and what stood above still does |
| `ExecStack.LoadsOne` | lib/libc/src/crt0.S:33-37 | a program sees at most one word at an address |
| `ExecStack.StringOne` | lib/libc/src/crt0.S:33-37 | a program sees at most one string at an address |
| `ExecStack.StackRoundTrip` | kernel/proc/exec.c:250-323 | the program finds at its stack pointer the number of arguments, then a pointer to each in order, each to its NUL-terminated string, then a null pointer |
| `ExecStack.SetupOkIff` | kernel/proc/exec.c:250-323 | the stack is set up if and only if every page from its lowest written address to its top is mapped |
| `ExecObject.PutBytes` | kernel/proc/exec.c:84-110 | the copy of one chunk into the frame behind its page |
| `ExecObject.WriteBytes` | kernel/proc/exec.c:84-110 | the chunk loop refines WriteUser |
| `ExecObject.PushWord` | kernel/proc/exec.c:112-116 | refines the push of one word |
| `ExecObject.PushArgs` | kernel/proc/exec.c:276-296 | the string loop refines PushStrings |
| `ExecObject.BuildStack` | kernel/proc/exec.c:250-323 | refines SetupStack, failures included |
| `ExecObject.PushFrame` | kernel/proc/exec.c:298-323 | alignment, terminator, pointers last to first, count |
| `Caps.FreeSlot` | kernel/ipc/capability.c:103-115 | the first free slot, or none exactly when all are marked |
| `Caps.PutOkIff` | kernel/ipc/capability.c:120-126 | a capability put into a free slot keeps the books exactly when it has a type |
| `Caps.ClearOk` | kernel/ipc/capability.c:131-137 | clearing an occupied slot keeps the books |
| `Caps.PlaceInv` | kernel/ipc/capability.c:144-172 | placing a capability with its derivation keeps the invariant |
| `Caps.InsertInv` | kernel/ipc/capability.c:144-172 | insertion keeps the invariant, refusals included |
| `Caps.DeleteInv` | kernel/ipc/capability.c:201-223 | deletion keeps the invariant, refusals included |
| `Caps.DeriveInv` | kernel/ipc/capability.c:230-378 | copying and minting keep the invariant on every branch, also when destination and source are one space |
| `Caps.StepInv` | kernel/ipc/capability.c:144-378 | every operation keeps the invariant |
| `Caps.BootInv` | kernel/ipc/capability.c:29-63 | empty spaces satisfy it |
| `Caps.Descent` | kernel/ipc/capability.c:230-378 | down a chain of derivations rights only shrink, the object stays, and whoever was derived from could grant |
| `Caps.RunInv` | kernel/ipc/capability.c:144-378 | after any sequence of operations over any number of spaces: bitmap and count are exact, and every capability's rights are a subset of those of the inserted capability it goes back to, each derivation made from one that carried GRANT |
| `CapsObject.DeriveIsInto` | kernel/ipc/capability.c:230-378 | the history-keeping step and the operation on two spaces agree |
| `CapsObject.Cspace.constructor` | kernel/ipc/capability.c:29-63 | an empty space |
| `CapsObject.Cspace.FindFree` | kernel/ipc/capability.c:103-115 | the scan refines FreeSlot |
| `CapsObject.Cspace.Store` | kernel/ipc/capability.c:120-126 | slot, mark and count in place |
| `CapsObject.Cspace.InsertCap` | kernel/ipc/capability.c:144-172 | refines Insert on every branch |
| `CapsObject.Cspace.LookupCap` | kernel/ipc/capability.c:179-196 | returns the capability exactly when the slot is occupied |
| `CapsObject.Cspace.DeleteCap` | kernel/ipc/capability.c:201-223 | refines Delete |
| `CapsObject.Cspace.DeriveFrom` | kernel/ipc/capability.c:230-378 | refines copy and mint, also from the same space |
| `Ramfs.AllocFrom` | fs/ramfs/main.c:74-82 | the first free inode, or none exactly when all are used |
| `Ramfs.Find` | fs/ramfs/main.c:102-118 | the first entry with the name, or none exactly when there is none |
| `Ramfs.GrowInv` | fs/ramfs/main.c:123-145 | entering a new file or directory keeps the tree |
| `Ramfs.ShrinkInv` | fs/ramfs/main.c:150-170 | removing a file keeps the tree |
| `Ramfs.NotNamed` | fs/ramfs/main.c:74-82 | no entry names a free inode |
| `RamfsRuns.SameInv` | fs/ramfs/main.c:87-97 | what free inodes still hold does not matter |
| `RamfsRuns.CreateSpec` | fs/ramfs/main.c:218-241 | creation enters exactly one new file, or changes nothing that is in use |
| `RamfsRuns.MkdirSpec` | fs/ramfs/main.c:246-274 | enters exactly one directory or changes nothing in use; it keeps the tree if and only if the parent is not the free inode about to be used |
| `RamfsRuns.MkdirInFreeInode` | fs/ramfs/main.c:246-274 | a directory made in inode 2 of a fresh file system is its own parent |
| `RamfsRuns.UnlinkSpec` | fs/ramfs/main.c:364-382 | removes exactly the named file, or changes nothing |
| `RamfsRuns.CreateThenUnlink` | fs/ramfs/main.c:218-382 | creating a file and unlinking it leaves every file and directory as it was |
| `RamfsRuns.StepInv` | fs/ramfs/main.c:218-382 | every request keeps the tree |
| `RamfsRuns.BootInv` | fs/ramfs/main.c:175-199 | the fresh file system is a tree |
| `RamfsRuns.RunInv` | fs/ramfs/main.c:175-382 | over every run: each directory leads to the root, names are unique, every inode in use but the root is named by exactly one directory, link counts and inode count are right, failed requests included |
| `RamfsObject.RamDisk.constructor` | fs/ramfs/main.c:175-199 | the root directory alone |
| `RamfsObject.RamDisk.AllocInode` | fs/ramfs/main.c:74-82 | the scan refines AllocFrom |
| `RamfsObject.RamDisk.FindName` | fs/ramfs/main.c:102-118 | the scan refines Find |
| `RamfsObject.RamDisk.AddName` | fs/ramfs/main.c:123-145 | refines the addition of an entry, full directories included |
| `RamfsObject.RamDisk.InitAt` | fs/ramfs/main.c:87-97 | refines the initialisation of an inode |
| `RamfsObject.RamDisk.CreateFile` | fs/ramfs/main.c:218-241 | refines Create |
| `RamfsObject.RamDisk.MakeDir` | fs/ramfs/main.c:246-274 | refines Mkdir |
| `RamfsObject.RamDisk.RemoveEntry` | fs/ramfs/main.c:150-170 | the shifting loop removes one entry and keeps the order of the rest |
| `RamfsObject.RamDisk.UnlinkFile` | fs/ramfs/main.c:364-382 | refines Unlink |
| `Slab.ObjInPage` | kernel/mm/slab.c:75-99 | every object of a slab lies inside its page, after the header |
| `Slab.ObjApart` | kernel/mm/slab.c:104-138 | different objects of a slab do not overlap |
| `Slab.ChainUnique` | kernel/mm/slab.c:104-138 | a freelist chain is determined by its head: following it cannot come back |
| `Slab.BuildChain` | kernel/mm/slab.c:104-138 | the loop threads a new freelist through all objects, in order |
| `Slab.ReslabLists` | kernel/mm/slab.c:225-315 | moving a slab by its counts keeps the three lists exact |
| `Slab.NewSlabInv` | kernel/mm/slab.c:104-138 | a new slab keeps the heap invariant and stands first on the empty list |
| `Slab.TakeInv` | kernel/mm/slab.c:225-273 | handing out an object keeps the invariant, and the object was free |
| `Slab.FreeInv` | kernel/mm/slab.c:278-315 | taking an object back keeps the invariant: it joins its own slab's freelist |
| `Slab.AllocSpec` | kernel/mm/slab.c:225-273 | fails exactly when the cache has no partial or empty slab and no page is to be had, changing nothing; otherwise exactly one object of the cache, not live before, becomes live |
| `Slab.LiveApart` | kernel/mm/slab.c:225-315 | live objects of any caches never overlap |
| `Kmalloc.ClassFor` | kernel/mm/slab.c:372-384 | the smallest of the nine classes that holds a size of up to 2048 bytes |
| `Kmalloc.OrderFrom` | kernel/mm/slab.c:404-427 | the smallest order whose block holds the pages, as far as 32 bits go |
| `Kmalloc.LoopEndsIff` | kernel/mm/slab.c:404-427 | the search for an order ends if and only if at most 2^31 pages are wanted |
| `Kmalloc.LargeCoversIff` | kernel/mm/slab.c:404-427 | the order found covers the request if and only if the size is at most 2^64 - 4096; above, it is order 0 |
| `Kmalloc.KmallocSlabSpec` | kernel/mm/slab.c:404-427 | a request served by a slab: a new pointer of at least the size asked for |
| `Kmalloc.KmallocLargeSpec` | kernel/mm/slab.c:404-427 | a request served by pages: a new pointer, or none when the order is too large or memory ran out; it never returns exactly when the search does not end |
| `Kmalloc.KmallocSpec` | kernel/mm/slab.c:404-427 | for every 64-bit size: nothing for zero or when memory ran out, no return above 2^31 pages, otherwise a pointer that was not live and nothing else changes hands; it is backed by the size if and only if the size is at most 2^64 - 4096 |
| `Kmalloc.KmallocWraps` | kernel/mm/slab.c:404-427 | the largest request gets a single page |
| `Kmalloc.KfreeSpec` | kernel/mm/slab.c:444-472 | the marks of the page record give a live block back to whoever produced it: an object to its own slab, a large block to the page allocator with the order the allocator's ledger has for it |
| `Kmalloc.KsizeOf` | kernel/mm/slab.c:490-505 | the size told by the marks is that of the slab's class or of the block handed out, and covers the request exactly when that did not wrap |
| `Kmalloc.BlocksApart` | kernel/mm/slab.c:404-427 | live blocks never overlap, whatever their sizes and wherever they came from |
| `Kmalloc.AlignedIff` | kernel/mm/slab.c:351-367 | objects follow a 48-byte header, so exactly the two smallest classes get the alignment they declare |
| `Kmalloc.StepInv` | kernel/mm/slab.c:404-472 | each operation keeps the heap invariant |
| `Kmalloc.BootInv` | kernel/mm/slab.c:351-367 | nine empty caches over any page allocator state without slab marks satisfy it |
| `Kmalloc.RunInv` | kernel/mm/slab.c:404-472 | in every run, with whatever else the kernel does with pages: each freelist is an acyclic chain of exactly the free objects, counts add up and pick the list, the marks name the allocator and order of every live block, live blocks do not overlap, and each covers its request unless that wrapped |
| `SlabObject.KernelHeap.constructor` | kernel/mm/slab.c:351-367 | nine caches without slabs |
| `SlabObject.KernelHeap.AddSlab` | kernel/mm/slab.c:104-138 | the threading loop refines NewSlab |
| `SlabObject.KernelHeap.Move` | kernel/mm/slab.c:225-315 | refines Reslab |
| `SlabObject.KernelHeap.Take` | kernel/mm/slab.c:225-273 | refines Take |
| `SlabObject.KernelHeap.AllocObject` | kernel/mm/slab.c:225-273 | refines Alloc |
| `SlabObject.KernelHeap.FreeObject` | kernel/mm/slab.c:278-315 | refines Free; an object of another cache is refused |
| `SlabObject.KernelHeap.FindOrder` | kernel/mm/slab.c:404-427 | the loop with its 64-bit sum and 32-bit shift finds the order, or none exactly above 2^31 pages, where no shift ever reaches it |

## Left out

Restrictions of members in the table:

- BuddyRuns.ZoneRunKeeps: the page counter is an unbounded number, so the wrap of the 64-bit counter after enough drift is not modelled.
- BuddyTheory.FreeSpec: page records past the page array (zone ends are not clamped to it) are taken as readable and unmarked.
- PmmTheory.AllocPagesSpec: the zeroing of pages and the kernel-page flag are not part of a page here (`GFP_KERNEL` is 0, so the flag is never set).
- IpcSteps.StepQ: one transition runs a thread until it returns or sleeps, on one CPU; finer interleaving is `SleepWake`.
- IpcObject.MessageKernel.SendOp: threads and endpoints are table positions, and the wait record lives in the thread's entry instead of being allocated.
- SleepWake.StepInv: one CPU that may switch between lock sections; which queued thread runs next is left open, and orphans are not handed to another process.
- PagingOps.MapRangeSpec: permission bits other than writable, user and no-execute are kept as one number that the walk does not combine, and flag words hold no address or huge-page bits.
- VmSpaces.UnmapPages: page-aligned ranges; the area list alone is covered for every range (`Vma.RemoveSpec`).
- VmRegions.MapRegionAreas: the order in which the page allocator hands out frames is fixed as a queue, as nothing proved depends on it; other users of the pool and the written contents of records are not modelled.
- VmClone.CloneChild: areas are aligned and in the user half, as `RunIsolated` keeps them; cloning an area of the kernel half would write to shared tables.
- VmLife.FreeSpaceSpec: destruction by the last holder; a shared address space only loses a count.
- SchedRuns.ScheduleSpec: without the switch of stacks, page tables and task-state segment; the 64-bit bitmap words are sequences of 64 bits.
- LibcHeapRuns.FreeSpec: pointers that are not live are not freed or resized, which the C standard leaves undefined.
- ExecStack.StackRoundTrip: starts after the stack pages are mapped, or not, in any isolated state, and for strings that fit below the stack top without wrapping.
- Kmalloc.KfreeSpec: pointers that are not live are not freed; the shift count of a 32-bit shift is taken modulo 32, as the machine does.
- IpcRuns.RunSound: the record of a dead thread stays; the kernel frees it when its process is reaped, and `DebtsSurviveIff` says which step lets a reply still name it.
- Caps.RunInv: without revocation; the generation numbers of capabilities are never compared by these operations.
- RamfsRuns.RunInv: names that fit their field; modes and times are not part of an inode.

Not modelled, because it would add only easy members or lies outside the core:

- Extended message buffers, capabilities carried in messages, notifications, endpoint binding and the dump functions.
- Spinlocks themselves, memory ordering, interrupts and more than one CPU.
- Time slices, sleeping by time, wait queues and nice values of the scheduler.
- TLB flushes and the boot-time construction of the kernel's page tables.
- `vmm_mmap`, `vmm_mprotect`, `vmm_map_to_user`, page faults, `brk`, and the counters of an address space.
- ELF loading, process creation, pid allocation and signals.
- Destroying and shrinking slab caches, `kzalloc`, `kmalloc_aligned` and statistics.
- `calloc`, number parsing, printing and string functions of the C library.
- Reading, writing and stat in the RAM file system, and its request loop.
- The ext2 server, device drivers, the VFS, the shell and all assembly except the argument fetch of `crt0.S`.
