# Toy OS simulator core, modelled in Dafny

This project models the sequential core of a teaching operating-system
simulator written in C. It covers five parts:

- **Region allocator** (`src/libmem.c`). Each process has a symbol table of
  `[rg_start, rg_end)` ranges, one virtual memory area with a break pointer
  (`sbrk`) that only grows, and a free-region list. Allocation reuses the
  first free range that fits. On a miss it grows the break by a page-aligned
  amount and enlists the slack. Freeing moves a bound range onto the free
  list.
- **Demand paging with FIFO replacement** (`src/libmem.c`). A page-table
  entry is `Present(fpn)` or `Swapped(swpfpn)`. The FIFO of resident pages
  is kept newest first. A fault pages the oldest resident page out to a
  fresh swap frame and the faulting page into the RAM frame it vacated.
  `pg_getval`/`pg_setval` and `__read`/`__write` go through this layer, and
  `free_pcb_memph` returns every frame a process holds.
- **Bounded process queue** (`src/queue.c`). `dequeue` removes the first
  entry of highest priority and shifts the rest down.
- **Multi-level-queue slot scheduler** (`src/sched.c`). Level `p` may be
  served `MAX_PRIO - p` times before all slots are reset. The scan starts at
  the last level served, and an empty full pass returns no process.
- **Kill-by-name system call** (`src/sys_killall.c`). It takes every process
  whose path ends in `/<name>` off the running list and off every MLQ level.
  It marks each one finished and frees the regions its ALLOC instructions
  name.

Modules and files:

| file | module | contents |
|---|---|---|
| `config.dfy` | `Config` | constants, `byte`, `Option`, `Result`, error codes, page arithmetic |
| `physmem.dfy` | `PhysMem` | abstract RAM and swap stores (the `MEMPHY_*` contracts) |
| `regions.dfy` | `Regions` | symbol table, free list, `__alloc`, `__free`, `liballoc`, `libfree` |
| `paging.dfy` | `Paging` | page table, FIFO, `find_victim_page`, `pg_getpage`, `pg_getval`, `pg_setval`, `free_pcb_memph` |
| `vmaccess.dfy` | `VmAccess` | `__read`, `__write`, `libread`, `libwrite` |
| `queue.dfy` | `ProcQueue` | process records, `empty`, `enqueue`, `dequeue` (as a function and as the two-loop method) |
| `sched.dfy` | `Sched` | scheduler state, `init_scheduler`, `get_mlq_proc`, `put_mlq_proc`, `put_proc`, `queue_empty` |
| `killall.dfy` | `KillAll` | basename match, the removal loops, the ALLOC free pass, `__sys_killall` |

State is a value throughout. Every operation takes the old state and returns
the new one. A C error status of -1 becomes `Err(<reason>)`. A process record
(`Pcb`) is a value, not a pointer (see "Left out").

The constants come from the simulator's headers, which are not part of this
model. They are: `MAX_PRIO` = 140, `MAX_QUEUE_SIZE` = 10,
`PAGING_MAX_SYMTBL_SZ` = 30, a page of 256 bytes (`PAGING_ADDR_FPN_LOBIT` = 8)
and `PAGING_MAX_PGN` = 16384.

Assumed contracts for helpers whose code is not part of this model:

- `enlist_pgn_node` prepends, so the FIFO's last node is the oldest page.
- `MEMPHY_get_freefp` pops the head of the free-frame list and fails on an
  empty list.
- `MEMPHY_put_freefp` pushes a frame onto that list.
- `__swap_cp_page` copies one whole frame.
- `get_vma_by_num` finds the process's one area by id.
- `inc_vma_limit` succeeds exactly when the new break stays within a fixed
  ceiling, `Vma.limit`.

## Model

| member | source | states |
|---|---|---|
| AlignUp | src/libmem.c:93 | `PAGING_PAGE_ALIGNSZ`: the result is a multiple of the page size and lies in `[size, size + page)` |
| PhysAddrSplit | src/libmem.c:268 | `(fpn << 8) + off` with `off` inside a page splits back into that frame and offset |
| FramesDisjoint | src/libmem.c:291 | two different frames never share a physical byte address |
| PhysMem.Write | src/libmem.c:292 | `MEMPHY_write` changes exactly the addressed cell and no free-frame list |
| PhysMem.GetFreeFrame | src/libmem.c:228 | `MEMPHY_get_freefp` fails only on an empty list; otherwise it returns the head and the rest of the list |
| PhysMem.PutFreeFrame | src/libmem.c:234 | `MEMPHY_put_freefp` puts the frame at the head of the list and leaves the cells alone |
| PhysMem.CopyFrame | src/libmem.c:231-232 | `__swap_cp_page` copies each offset of the source frame into the target frame and changes no other cell |
| Regions.EnlistFreeRegion | src/libmem.c:32-45 | an empty or inverted range is refused with the list unchanged; otherwise it becomes the head, with the old list behind it |
| Regions.GetSymRegion | src/libmem.c:52-58 | the lookup succeeds exactly for ids `0 .. 29` and returns that table entry |
| Regions.SymIndexAsWritten | src/libmem.c:54-57 | the as-written guard accepts exactly the ids `0 .. 30` |
| Regions.SymIndexAsWrittenOverruns | src/libmem.c:54 | id 30 passes the as-written guard, which is one past the table, while the corrected lookup refuses it |
| Regions.FirstFit | src/libmem.c:451-479 | first fit: it returns the first node in list order whose length is at least `size`; every earlier node is too short; it fails when no node fits |
| Regions.EnlistThenFirstFit | src/libmem.c:36-42 | a range just enlisted is the first fit for any size it can hold |
| Regions.AllocAsWritten | src/libmem.c:68-117 | `__alloc` as written always reports status 0; on reuse the free list is unchanged |
| Regions.Alloc | src/libmem.c:75-111 | reuse binds exactly the first-fit range, returns its start and detaches it; growth binds `[sbrk, sbrk+size)`, returns the old break, raises it by the aligned size and enlists the slack `[sbrk+size, new break)`; a growth past the ceiling fails; no other table entry changes |
| Regions.Free | src/libmem.c:126-171 | fails exactly for an out-of-table id, an unbound entry or an unknown area, in that order; on success the entry becomes `[0, 0)` and its range heads the free list |
| Regions.LibAlloc | src/libmem.c:178-185 | corrected `liballoc` (built on the corrected `__alloc`, see Findings for lines 97-116): on area 0 it binds the id to a range of at least `size` bytes starting at the returned address, or fails for lack of address space |
| Regions.LibFree | src/libmem.c:193-199 | `libfree` succeeds exactly when the id is in the table and bound and the process's area is area 0; otherwise an invalid area |
| Regions.AllocPreservesValid | src/libmem.c:68-117 | allocation keeps the allocator invariant: live regions are non-empty, below the break and pairwise disjoint; free nodes are too and overlap no live region |
| Regions.ReuseKeepsValid | src/libmem.c:75-84 | binding an entry to a free node and detaching that node keeps the invariant |
| Regions.GrowthKeepsValid | src/libmem.c:93-111 | binding `[sbrk, sbrk+size)` and enlisting the slack above it keeps the invariant |
| Regions.FreePreservesValid | src/libmem.c:133-170 | freeing keeps the allocator invariant |
| Regions.FreeTwiceFails | src/libmem.c:141-166 | a second free of the same id fails as unallocated |
| Regions.FreeThenAllocReuses | src/libmem.c:160-166 | after a free, an allocation of at most that size gets the freed range back and leaves the break where it was |
| Regions.AllocGrowthCoversExtension | src/libmem.c:99-111 | after the corrected growth, every address between the old and new break lies in the new region or in the slack node |
| Regions.AllocAsWrittenLosesSlackByte | src/libmem.c:101 | as written, the byte at old break + size is below the new break but in neither the region nor any free node |
| Regions.AllocAsWrittenHidesGrowthFailure | src/libmem.c:97-116 | as written, a refused growth reports 0 and binds nothing; the corrected allocation reports out of address space |
| Regions.AllocAsWrittenHandsOutTwice | src/libmem.c:467-470 | as written, two allocations from one free page both get `[0, 256)`, which breaks the invariant; the corrected one detaches the node |
| Paging.FindVictim | src/libmem.c:413-443 | fails on an empty FIFO; otherwise it returns the last page, and the rest of the list is the old list without it |
| Paging.FindVictimAsWritten | src/libmem.c:430-437 | as written, a one-node FIFO returns its page but keeps it on the list; longer lists behave as intended |
| Paging.FindVictimAsWrittenRepeats | src/libmem.c:430-439 | as written, a one-page FIFO hands out the same victim twice in a row |
| Paging.VictimIsOldest | src/libmem.c:432-436 | pages enlisted later are never evicted before older ones: the victim of `newer + older` is the oldest of `older` |
| Paging.PgGetPage | src/libmem.c:208-246 | a resident page returns its frame and changes nothing; an unmapped page, an empty FIFO or a full swap device fail; a fault gives the faulting page the victim's frame, sends the victim to a fresh swap frame, frees the old swap frame and enlists the page |
| Paging.PgGetPageAsWritten | src/libmem.c:237-238 | as written, a fault returns the same frame as intended but leaves the faulting page's table entry on its old swap frame |
| Paging.TwoPagesFault | src/libmem.c:212-243 | a concrete fault: page 0 moves to swap frame 1 and page 1 takes RAM frame 0 |
| Paging.PgGetPageAsWrittenBreaksInv | src/libmem.c:237-240 | as written, that fault leaves a page on the FIFO that is not resident: the paging invariant breaks |
| Paging.PgGetPageKeepsInvAndView | src/libmem.c:208-246 | a page access keeps the paging invariant and every byte any page shows |
| Paging.FaultKeepsInv | src/libmem.c:212-241 | a fault keeps the FIFO exact, keeps frames unshared and keeps used frames off the free lists |
| Paging.FaultKeepsFifo | src/libmem.c:222-240 | after a fault the FIFO holds each resident page exactly once: the victim leaves it and the faulting page is enlisted |
| Paging.FaultKeepsSwapList | src/libmem.c:228-237 | after a fault the swap free list has no repeats and holds no swapped page's frame: the victim's new frame leaves it and the faulting page's old one joins it |
| Paging.FaultKeepsView | src/libmem.c:222-238 | a fault moves the victim's bytes to its new swap frame and the faulting page's bytes into RAM, so no page's bytes change |
| Paging.PgGetVal | src/libmem.c:254-273 | `pg_getval` succeeds exactly when the page can be made resident, and reads RAM at `(fpn << 8) + off` |
| Paging.PgSetVal | src/libmem.c:281-294 | `pg_setval` succeeds exactly when the page can be made resident, and writes RAM at the address `pg_getval` reads |
| Paging.GetValReadsView | src/libmem.c:254-273 | a read returns the byte the process sees at that address, keeps the invariant and changes no visible byte |
| Paging.SetValWritesView | src/libmem.c:281-294 | a write changes the visible byte at that address to the value and no other visible byte |
| Paging.SetThenGet | src/libmem.c:268-292 | `pg_setval` then `pg_getval` at the same address returns the byte written |
| Paging.TouchPages | src/libmem.c:208-246 | any sequence of page accesses keeps the invariant and every visible byte |
| Paging.SwapFidelity | src/libmem.c:208-294 | a byte written reads back unchanged after any number of faults, including ones that evict its page |
| Paging.ReclaimFrom | src/libmem.c:389-403 | as intended, each mapped page gives back one frame: a resident page its RAM frame, a swapped page its swap frame |
| Paging.ReclaimAsWrittenFrom | src/libmem.c:393-402 | as written, the branches are swapped: a swap frame number goes to the RAM pool and a RAM frame number to the swap pool |
| Paging.ReclaimAll | src/libmem.c:384-406 | after the corrected `free_pcb_memph`, every frame the process held is on the matching free list, no frame already free is lost, one frame comes back per mapped page, and the page table, FIFO and stored bytes are untouched |
| Paging.ReclaimAsWrittenLeaksRam | src/libmem.c:393-397 | as written, a resident page's RAM frame that no swap frame shares a number with never returns to the RAM pool |
| VmAccess.Lookup | src/libmem.c:306-310 | corrected lookup (the `>=` bound of the Findings row for line 54): `__read`/`__write` refuse exactly an out-of-table region id or an unknown area |
| VmAccess.RegionReadAsWritten | src/libmem.c:304-315 | as written, `__read` fails only on lookup; a failed page access still reports success, with no byte and the paging state unchanged; any table of non-negative starts is accepted, overlapping ones included |
| VmAccess.RegionRead | src/libmem.c:304-315 | corrected `__read`: it fails exactly when the lookup or the page access fails |
| VmAccess.RegionWriteAsWritten | src/libmem.c:348-359 | as written, `__write` fails only on lookup; a failed page access reports success and writes nothing; any table of non-negative starts is accepted, overlapping ones included |
| VmAccess.RegionWrite | src/libmem.c:348-359 | corrected `__write`: it fails exactly when the lookup or the page access fails |
| VmAccess.ReadAsWrittenAgrees | src/libmem.c:312-314 | the two `__read` versions agree whenever the page access succeeds; otherwise the as-written one reports success with no byte |
| VmAccess.AccessAsWrittenHidesFault | src/libmem.c:356-358 | once the page access can fail (here an unmapped page), a read and a write of an allocated region report success as written, and fail with an invalid page as intended |
| VmAccess.ReadSeesView | src/libmem.c:304-315 | a successful region read returns the byte the process sees at start + offset, and changes no visible byte |
| VmAccess.WriteChangesOneByte | src/libmem.c:348-359 | a successful region write changes the visible byte at start + offset to the value and no other visible byte |
| VmAccess.WriteThenRead | src/libmem.c:304-359 | reading back what was just written to a region returns it |
| VmAccess.AsWrittenTableAliases | src/libmem.c:467-470 | after the as-written allocator hands `[0, 256)` to ids 0 and 1, a byte written through id 0 is read back through id 1 |
| VmAccess.LibRead | src/libmem.c:318-338 | corrected `libread` (built on the corrected `__read` and lookup): it refuses a bad id or a missing area 0; otherwise it succeeds exactly when the page access does |
| VmAccess.LibWrite | src/libmem.c:362-377 | corrected `libwrite` (built on the corrected `__write` and lookup): it refuses a bad id or a missing area 0; otherwise it is the page write at start + offset |
| VmAccess.LibAccessRejectsBadId | src/libmem.c:325 | with the corrected lookup, `libread` and `libwrite` fail on an out-of-table id whatever the memory holds |
| ProcQueue.IsEmpty | src/queue.c:5-8 | `empty` holds exactly for a missing queue or a queue of size 0 |
| ProcQueue.Enqueue | src/queue.c:10-16 | a full queue is unchanged; otherwise the process goes into slot `size` and every earlier slot is kept; the size never exceeds the capacity |
| ProcQueue.FirstMax | src/queue.c:24-32 | the scan ends on an index whose priority is at least every entry's and strictly above every earlier entry's |
| ProcQueue.FirstMaxUnique | src/queue.c:27-32 | only one index satisfies that, so the chosen entry is determined |
| ProcQueue.RemoveAt | src/queue.c:34-37 | removing index `i` keeps the entries before it and moves every later entry down by one |
| ProcQueue.Dequeue | src/queue.c:18-41 | nothing exactly for an empty queue; otherwise the first entry of highest priority, and the queue without that entry |
| ProcQueue.ShiftDown | src/queue.c:34-37 | the copy-down loop followed by `size--` yields the list without index `i` |
| ProcQueue.DequeueLoop | src/queue.c:18-41 | the two-loop `dequeue` returns nothing exactly for an empty queue; otherwise a first highest-priority entry and the rest in order |
| ProcQueue.DequeueNoneIffEmpty | src/queue.c:22 | `dequeue` returns NULL exactly when `empty` holds |
| ProcQueue.DequeueRemovesOne | src/queue.c:34-38 | the size drops by one, and the remaining entries plus the returned one are the old entries as a multiset |
| ProcQueue.DequeueEqualPrioIsFifo | src/queue.c:27-32 | with equal priorities, `dequeue` takes the head and keeps the rest in order |
| ProcQueue.EnqueueThenDequeue | src/queue.c:10-41 | a process enqueued on an empty queue is dequeued next, leaving the queue empty |
| ProcQueue.EnqueueHigherIsNext | src/queue.c:15-31 | a process with a higher priority than every queued one is dequeued next, and leaves the queue as it was before the enqueue |
| Sched.InitSlots | src/sched.c:39-42 | level `i` starts with `MAX_PRIO - i` slots used, which is its full quota |
| Sched.ZeroSlots | src/sched.c:75-77 | after a reset every level has used no slot |
| Sched.InitScheduler | src/sched.c:35-47 | every level and the ready and run queues are empty, slots are at their quota, and no level is eligible |
| Sched.Scan | src/sched.c:64-74 | the flag-mode loop finds the first eligible level at or above `MarkedPrior`; otherwise `count` grows by the number of levels looked at and none of them is eligible |
| Sched.ScanNotFoundIff | src/sched.c:64-74 | the scan finds nothing exactly when no level from its start up is eligible |
| Sched.Serve | src/sched.c:65-71 | serving a level dequeues from it and raises its slot count by one; nothing else changes |
| Sched.Reset | src/sched.c:75-79 | a reset zeroes every slot, sets `MarkedPrior` to 0 and sets `flag`, keeping the queues |
| Sched.FlagPass | src/sched.c:63-86 | the `goto` loop terminates; NULL comes with a reset and `count == MAX_PRIO`; a pick fixes `MarkedPrior` on the served level and clears `flag` |
| Sched.FlagPassServes | src/sched.c:63-86 | a flag-mode pick serves the first eligible level; levels it skipped are ineligible, and after a reset the lower levels are empty |
| Sched.FlagPassOnEmpty | src/sched.c:63-86 | with every level empty, flag mode returns NULL |
| Sched.GetMlqProc | src/sched.c:56-100 | `get_mlq_proc` terminates; a NULL result comes with a reset and `count == MAX_PRIO`; a pick leaves `MarkedPrior` on the served level |
| Sched.PickIsServe | src/sched.c:56-100 | every pick is one serve of an eligible level, either in the current round or just after a reset |
| Sched.PickTouchesOneLevel | src/sched.c:66 | a pick changes no level except the served one and never changes the ready, run or running queues |
| Sched.PickSpendsOneSlot | src/sched.c:88-90 | without a reset, a pick spends one slot of an eligible level; after one, the served level's count is 1 and every other is 0; the process is that level's dequeue |
| Sched.PickWithoutReset | src/sched.c:88-92 | a pick without a reset returns a process and raises only the served level's slot count, by one |
| Sched.ServesBetweenResets | src/sched.c:65-90 | fairness: between resets, level `p` is served at most `MAX_PRIO - p` times, less the slots already spent |
| Sched.FirstPickIsNull | src/sched.c:41 | right after `init_scheduler` the first pick is NULL, because every slot is at its quota |
| Sched.NullThenNullIffEmpty | src/sched.c:75-86 | after a NULL, the next pick is NULL again exactly when every level is empty |
| Sched.EmptyMlqPicksNull | src/sched.c:80-82 | with every level empty the pick is NULL |
| Sched.PutMlqProc | src/sched.c:102-106 | `put_mlq_proc` enqueues on level `prio` and on no other level |
| Sched.PutProc | src/sched.c:118-129 | `put_proc` enqueues on the running list and on level `prio`; slots and markers are unchanged |
| Sched.PutProcQueuesAtItsLevel | src/sched.c:124-128 | a process put on a level with room becomes that level's last entry |
| Sched.QueueEmpty | src/sched.c:19-27 | -1 exactly when some level is non-empty; otherwise 1 exactly when the ready and run queues are both empty, and 0 if not |
| Sched.QueueEmptyAgreesWithPick | src/sched.c:19-27 | when `queue_empty` does not report a queued level, `get_mlq_proc` returns NULL |
| KillAll.LastSlash | src/sys_killall.c:57 | `strrchr(path, '/')`: the position of the last slash, or none when the path has no slash |
| KillAll.Matches | src/sys_killall.c:57-58 | a path matches exactly when the text after its last slash equals the name |
| KillAll.NoSlashNeverMatches | src/sys_killall.c:58 | a path without a slash matches no name |
| KillAll.LoaderPathMatches | src/os.c:507 | a loader path `input/proc/<n>` matches exactly the name `n` |
| KillAll.Finish | src/sys_killall.c:61 | a matched process ends with `pc == code->size`, the finished test of the CPU loop, and keeps every other field |
| KillAll.Keep | src/sys_killall.c:56-68 | the entries left after removal match nothing and are never more than before |
| KillAll.Taken | src/sys_killall.c:56-68 | the killed entries are finished and match; kept plus killed make up the whole list |
| KillAll.KeepTakenAppend | src/sys_killall.c:56-68 | keep and kill distribute over concatenation, so the kept entries keep their relative order |
| KillAll.KeepNoMatch | src/sys_killall.c:56-68 | a list with no match is kept whole and yields no kill |
| KillAll.KeepCountsNonMatching | src/sys_killall.c:62-65 | every non-matching process stays as many times as it occurred |
| KillAll.KillFromList | src/sys_killall.c:56-68 | the run-list loop, with the in-place shift and the `i--`, leaves exactly the non-matching entries in order and records the matches, finished and in order |
| KillAll.KillStep | src/sys_killall.c:62-66 | one round: on a match, removing slot `i` leaves the kept prefix and the unexamined rest, and `i--` makes the shifted-in entry the next one examined |
| KillAll.KillLevelAsWritten | src/sys_killall.c:71-86 | the MLQ loop as written, with the shift starting at `k = 0`: the result and the kill record together have the level's length |
| KillAll.KillLevel | src/sys_killall.c:70-87 | as intended, a level keeps its non-matching entries and yields its matches, finished |
| KillAll.KillLevelAsWrittenDropsWrongEntry | src/sys_killall.c:79-83 | with A and then B on one level, killing `b` as written leaves the finished B and drops A; as intended it leaves A alone |
| KillAll.FreeAllocRegions | src/sys_killall.c:98-100 | the free pass leaves every in-table region that an ALLOC instruction names unbound and puts each such bound range on the free list (as `__free` does, src/libmem.c:160-166); entries no ALLOC names and entries already unbound are unchanged, and so are the break, the limit and the free nodes already listed |
| KillAll.FreePassNoop | src/sys_killall.c:98-100 | when no region that an ALLOC names is bound, the free pass changes nothing |
| KillAll.FreePassIdempotent | src/sys_killall.c:96-101 | running the free pass twice for one process, when it is found on two lists, frees what one pass frees |
| KillAll.FreePassKeepsValid | src/sys_killall.c:98-100 | the free pass keeps the allocator invariant |
| KillAll.Release | src/sys_killall.c:98-100 | after its free pass a killed process keeps pid, priority, path, pc and code; every in-table id an ALLOC names is unbound, every other entry is unchanged, and the allocator invariant is kept |
| KillAll.ReleaseAll | src/sys_killall.c:94-103 | each kill-list entry, in order, comes out released: same identity and code, its ALLOC-named regions unbound, its other entries and its allocator invariant kept |
| KillAll.TakenFromLevels | src/sys_killall.c:70-87 | the MLQ kills, level by level, are all finished and matching |
| KillAll.KillFromLevels | src/sys_killall.c:70-87 | the MLQ loop as intended leaves each level with exactly its non-matching entries in order, and appends the matches level by level from 0 up |
| KillAll.SysKillAll | src/sys_killall.c:46-108 | as intended (corrected MLQ loop): the running list and every level keep exactly their non-matching entries in order; no other scheduler state changes; the kill list is the run-list matches then the level matches, each with its free pass applied |
| KillAll.NoMatchLeft | src/sys_killall.c:56-87 | as intended (corrected MLQ loop): after the kill, no process on the running list or on any level matches the name |
| KillAll.KilledNeverScheduled | src/sys_killall.c:70-87 | as intended (corrected MLQ loop): after the kill, the scheduler never picks a process with the killed name |
| KillAll.KillListCount | src/sys_killall.c:59 | every kill-list entry is finished and matches the name |

## Left out

- Locking with `mmvm_lock` and `queue_lock`, and the pthread CPU and loader
  routines: each public operation is one atomic step.
- `mmvm_lock` taken a second time instead of released on `__alloc`'s
  unknown-area path (`src/libmem.c:89`): that path cannot run (see
  Regions.Alloc below).
- printf tracing, `IODUMP`, `PAGETBL_DUMP` and `MEMPHY_dump`.
- `read_config` and the rest of `src/os.c`: I/O and thread orchestration.
  Only the loader's path format and the finished test are used.
- The name-reading loop of `__sys_killall` (`src/sys_killall.c:31-39`).
  `libread` never stores into its destination, so `data` stays 0 and the loop
  has no meaningful result. The name is a parameter of `KillAll.SysKillAll`.
- `mm.h`, `mm.c` and `mm-memphy.c` are not part of this model. The PTE bit
  fields and `PAGING_*` macros become the `Pte` datatype and `/` and `%` by
  the page size. `MEMPHY_*`, `__swap_cp_page`, `get_vma_by_num`,
  `inc_vma_limit` and `enlist_pgn_node` get the abstract contracts listed
  above.
- Only the process's first area (`mm->mmap`) is modelled. `liballoc`,
  `libfree`, `libread`, `libwrite` and the kill pass only use that area, and
  `enlist_vm_freerg_list` always writes to it.
- Pointers and aliasing: processes are values.
  - A process found on both the running list and an MLQ level comes back
    twice in the kill list.
  - Both of its free passes act on the same record, whose second pass is a
    no-op (`KillAll.FreePassIdempotent`).
  - `malloc` and `free` of list nodes become sequence operations.
- The bound of `kill_process[MAX_PRIO]` (`src/sys_killall.c:46`): the kill
  list is unbounded. More than 140 matches would overflow the C array.
- `get_proc` (`src/sched.c:114-116`) only calls `get_mlq_proc`, which
  `Sched.GetMlqProc` models.
- `add_mlq_proc` and `add_proc` (`src/sched.c:108-112`, `src/sched.c:131-142`)
  have the same bodies as `put_mlq_proc` and `put_proc`, so `Sched.PutMlqProc`
  and `Sched.PutProc` model them.
- The non-MLQ build (`src/sched.c:143-182`) is not modelled.
- The pointers `put_proc` stores into the process record
  (`src/sched.c:119-121`) are not modelled.
- Regions.Alloc: requires an id inside the table and the area's own id.
  `__alloc` writes `symrgtbl[rgid]` without checking `rgid`.
  `get_free_vmrg_area` dereferences the area before any null check, so an
  unknown area id crashes before the check at `src/libmem.c:87-91` runs.
- Regions.LibAlloc: requires an index inside the table, for the same
  unchecked write.
- Sched.PutMlqProc: requires `prio < MAX_PRIO`, the bound of the array that
  `mlq_ready_queue[proc->prio]` indexes.
- ProcQueue.Enqueue: operates on a present queue. `enqueue` reads `q->size`
  before its NULL test, so a NULL queue crashes instead of being ignored.
- VmAccess.LibRead: returns only the status and the paging state, because
  `libread` drops the byte it read. Offsets are natural numbers; the
  conversion of a `uint32_t` offset above `INT_MAX` to `int` is not modelled.
- VmAccess.RegionRead: requires every table entry to start at a
  non-negative address, so that start + offset is a valid address. The
  corrected allocator keeps this as part of its invariant; the as-written one
  produces overlapping tables that still meet it.
- Regions.LibAlloc: models `liballoc` over the corrected `__alloc`. As
  written, `liballoc` returns `__alloc`'s status, which is 0 even when growth
  fails (Findings row for `src/libmem.c:97-116`).
- Regions.LibAlloc: sizes are natural numbers; the conversion of a
  `uint32_t` size above INT_MAX to `__alloc`'s `int`, which would arrive
  negative and pass the first-fit test `rg_size >= size` for any node, is not
  modelled. `Regions.Alloc` takes a natural size for the same reason.
- KillAll.SysKillAll: models the corrected MLQ loop. As written, the shift
  starts at slot 0, so a finished match can stay on its level and the entry
  in slot 0 is dropped (Findings row for `src/sys_killall.c:79-81`).
- KillAll.NoMatchLeft: holds for the corrected MLQ loop only; as written a
  finished match stays on its level (Findings row for
  `src/sys_killall.c:79-81`).
- KillAll.KilledNeverScheduled: holds for the corrected MLQ loop only; as
  written the finished match left on a level can still be picked by
  `get_mlq_proc` (Findings row for `src/sys_killall.c:79-81`).
- VmAccess.Lookup: uses the corrected `>=` bound. As written, id 30 passes
  `get_symrg_byid` and reads one entry past the table (Findings row for
  `src/libmem.c:54`); that out-of-bounds read is not modelled.
- VmAccess.LibRead: built on the corrected `__read` and lookup. As written,
  `libread` returns 0 whenever the lookup passes, whatever `pg_getval` did,
  and accepts id 30 (Findings rows for `src/libmem.c:312-314` and
  `src/libmem.c:54`).
- VmAccess.LibWrite: built on the corrected `__write` and lookup, with the same
  two differences from `libwrite` as written.
- VmAccess.LibAccessRejectsBadId: holds for the corrected lookup only; as
  written, id 30 is accepted (Findings row for `src/libmem.c:54`).
- Paging.ReclaimAsWrittenFrom: works on the `Pte` datatype. The C moves bit
  fields instead: the `PAGING_PTE_FPN` field of a non-present entry and the
  `PAGING_PTE_SWP` field of a present one. It also walks all 16384 entries
  and so pushes frame 0 once for every all-zero entry; for a resident page in
  frame 0 that push hides the leak `Paging.ReclaimAsWrittenLeaksRam` shows.
- Shared devices: the loader gives every process the same RAM device
  (`src/os.c:126`), but each `Paging.PagingState` holds its own RAM and swap
  stores. That frames stay disjoint across processes is not modelled.
- Paging.ReclaimFrom: visits only the mapped pages. `free_pcb_memph` walks all
  16384 entries and would also hand back the frame number stored in an
  all-zero PTE.
- Paging.PgGetPage: an access to an unmapped page is an `InvalidPage` error;
  the C code reads whatever the zero PTE holds.

### Deviations taken as the evident intent, with no as-written member

These lines do not compile, or name a value the surrounding code plainly
does not mean. The model follows the evident intent:

- `rgit->end` for `rgit->rg_end` (`src/libmem.c:465`).
- `fpn` declared twice in `pg_getval` (`src/libmem.c:258`, `src/libmem.c:262`).
- `&new_free_rg` passed where the node itself is meant (`src/libmem.c:162`).
- `caller->mswp` used as a single device where the active swap device is
  meant (`src/libmem.c:231-232`).
- `pte_set_swap` given the entry by value instead of its address
  (`src/libmem.c:237`).
- The results of `find_victim_page` and `MEMPHY_get_freefp` are ignored
  (`src/libmem.c:222`, `src/libmem.c:228`). The model fails the fault with
  `NoResidentPages` or `SwapExhausted` instead.

## Findings

| source | as written | input that shows it | evidently intended | confidence | as-written member | corrected member |
|---|---|---|---|---|---|---|
| src/libmem.c:467-470 | the first-fit node is copied into the symbol table but stays on the free list | two allocations of 10 bytes with one free page `[0, 256)` | detach the node that was handed out | high, not executed | Regions.AllocAsWrittenHandsOutTwice | Regions.Alloc, Regions.AllocPreservesValid |
| src/libmem.c:101 | the slack node starts at `size + old_sbrk + 1` | any growth with `AlignUp(size) > size` | slack `[old_sbrk + size, old_sbrk + inc_sz)` | high, not executed | Regions.AllocAsWrittenLosesSlackByte | Regions.Alloc, Regions.AllocGrowthCoversExtension |
| src/libmem.c:97-116 | a refused growth still returns 0 | no fitting free node and `sbrk + AlignUp(size) > limit` | report failure | medium, not executed | Regions.AllocAsWrittenHidesGrowthFailure | Regions.Alloc |
| src/libmem.c:54 | `rgid > PAGING_MAX_SYMTBL_SZ` lets id 30 through | `rgid = 30` | `rgid >= PAGING_MAX_SYMTBL_SZ`, as `__free` checks | high, not executed | Regions.SymIndexAsWrittenOverruns | Regions.GetSymRegion |
| src/libmem.c:430-437 | with one node, `prev_pg` is the head itself, so the freed node stays on `fifo_pgn` | a FIFO holding only page `p` | the list becomes empty | high, not executed | Paging.FindVictimAsWrittenRepeats | Paging.FindVictim, Paging.VictimIsOldest |
| src/libmem.c:237-238 | `pte_set_fpn(&pte, vicfpn)` updates a local copy; the table entry keeps the released swap frame | `TwoPages`, fault page 1 | write the new entry into `mm->pgd[pgn]` | high, not executed | Paging.PgGetPageAsWrittenBreaksInv | Paging.PgGetPage, Paging.PgGetPageKeepsInvAndView |
| src/libmem.c:393-402 | the branches are inverted: a non-present entry's number goes to RAM, a present one's to swap | a resident page in RAM frame `f`, `f` not 0, with no swapped entry using `f` | resident pages return their RAM frame, swapped pages their swap frame | high, not executed | Paging.ReclaimAsWrittenLeaksRam | Paging.ReclaimAll |
| src/sys_killall.c:79-81 | the MLQ shift starts at `k = 0` and overwrites slot 0 instead of slot `j` | level `[input/proc/a, input/proc/b]`, kill `b` | shift from `k = j`, as the run-list loop does | high, not executed | KillAll.KillLevelAsWrittenDropsWrongEntry | KillAll.KillLevel, KillAll.SysKillAll |
| src/libmem.c:312-314 | `__read` and `__write` ignore the result of `pg_getval`/`pg_setval` and return 0. This is a latent defect: `pg_getpage` as written always returns 0 (line 245), so the status is lost only once `pg_getpage` reports failures, as the model's `InvalidPage` for an unmapped page does | region 0 bound to `[0, 10)` with no page mapped, offset 3, against a `pg_getpage` that fails on an unmapped page | return the page-access failure | low, not executed | VmAccess.AccessAsWrittenHidesFault | VmAccess.RegionRead, VmAccess.WriteThenRead |
