# A verified model of zsim's memory system

zsim simulates a multicore memory hierarchy. This project models the parts of it
that carry hard state-machine, concurrency or data-structure arguments, and
proves what they are for.

* **Coherence** (`Mesi`, `Coherence`, `CoherenceInv`, `CoherenceRuns`,
  `CoherenceTheorems`, `CoherenceProgress`, `Controllers`, `LockOrder`): the
  hierarchical MESI protocol for a line, as a state machine over a tree of caches
  of any depth and fan-out. A cache drops its bottom lock while its own request
  travels up, so invalidations interleave there; one function resolves every
  race. Each copy carries a ghost data version. A measure shows that work begun
  comes to an end. The two controller classes update their arrays in place and
  are tied to the steps of the state machine. `LockOrder` is about the locks
  alone, with threads that touch any lines.
* **ZCache array** (`ZWalk`, `ZCandidates`, `ZArrays`): the candidate walk, what it
  has to offer a replacement, and the relocation chain, which must leave a plain
  address-to-line map.
* **Barrier** (`BarrierState`, `Barriers`): the join/leave barrier with bounded
  parallelism, judged by a ghost history of joins, wakes, syncs, departures and
  phase ends.
* **DDR controller** (`DdrClock`, `DdrQueue`, `DdrTiming`, `DdrSlack`,
  `DdrMemories`, `DdrControllers`, `DdrRuns`): FR-FCFS queueing with its fairness
  throttle, scheduling with a ghost command trace that is legal and has no slack,
  refresh, the overflow queue, the clock translation, and runs under the event
  simulation, in which every request is served.
* **Locks** (`FutexLock`, `RwMutex`): the futex lock and the reader-writer mutex as
  atomic steps of any number of threads.
* **Fast forms of simple caches** (`FilterCaches`, `IntrusiveLists`, `LruStacks`,
  `IdealLru`): the L0 filter against the L1 it short-cuts, and the hash map with
  linked list against fully-associative LRU.

`Sequences` holds what several of them need about sequences without repetitions.

Inputs from outside are parameters: hash functions, replacement policies and the
random numbers of each shuffle are arbitrary functions, the scheduler of threads
makes arbitrary choices, memory's grant of S or E and the `NOEXCL` flag are part of
the step, the activation window's bound is an arbitrary number per bank, and a
child's writeback answer is a function of the child.

Where the code and what it says about itself differ, the model follows the code:

* `futex_haswaiters` is commented to have no false positives. It has: a thread
  that gets the lock by its exchange leaves 2 in the word, and so does a timed
  attempt that gives up. `HasWaitersWrongIff` shows that with nobody queued these
  are exactly the states in which the query answers true; two more lemmas give
  runs that reach them.
* `DDRMemory::tick` computes when a request that comes in from the overflow will
  be ready, but stores it in the wrong variable; `enqueue` uses the right one. So
  the next tick comes at the bound on the data bus, whether the request is ready
  then or not. `WakeRules` has the two rules; `TickRuleIff` shows that the tick's
  is never late and exactly when the two agree; and `Tick` that after a request
  has been served such a tick always finds the bus taken. `WastedTick` is a run
  in which it happens.
* `leave` accepts a thread in WAITING, and the constructor does not set `lastIdx`.
  A thread that joined from OFFLINE and was never woken has a meaningless back
  pointer, on which its later rejoin relies. `RejoinIff` gives the condition under
  which a rejoin keeps the bookkeeping, both ways; `WokenRejoins` says that having
  been woken since OFFLINE is enough; and in `StaleRejoin` a run of joins and a
  leave ends where the next rejoin fails the source's assertion, and would put one
  thread on the list twice and take another off it.
* Line address 0 doubles as "empty" in the filter, the ideal LRU array and the
  ZCache. The ZCache panics on it. The filter takes an access to it for a hit in
  an empty entry: `Perform` says exactly when the L1 then differs. The LRU array
  forgets it when it fills another empty entry: `ZeroSafe` are the traces up to
  that point, and `RunTrace` covers both sides.

## Model

| member | source | states |
|---|---|---|
| CoherenceTheorems.EveryRunIsCoherent | zsim/src/coherence_ctrls.cpp:56-342 | In every reachable state of every hierarchy, whatever the interleaving: no assertion or panic has been hit, single writer or many readers, cores read the last store, the last store is not lost, directories of resting caches are exact, and unless all caches rest some access or invalidation can go on. |
| CoherenceTheorems.InvariantGuarantees | zsim/src/coherence_ctrls.cpp:213-342 | The same guarantees from the invariant alone, for any state that satisfies it. |
| CoherenceTheorems.RaceResolved | zsim/src/coherence_ctrls.h:247-274 | For any sequence of invalidations between issue and service, the race check never panics; it skips exactly lost puts, and any other request proceeds as one the child could issue in its new state. |
| CoherenceTheorems.NoDeadlock | zsim/src/coherence_ctrls.h:306-404 | If any access or invalidation is under way, some step that finishes begun work is enabled. |
| CoherenceProgress.FinishingEnds | zsim/src/coherence_ctrls.h:306-404 | However finishing steps are chosen, no more of them than the work there is can be taken before a new access or eviction begins. |
| CoherenceProgress.AllFinish | zsim/src/coherence_ctrls.h:306-404 | From any state of the invariant the work begun can be finished: some run of finishing steps ends with every access and invalidation completed. |
| CoherenceProgress.AccessCompletes | zsim/src/coherence_ctrls.h:306-404 | A core may begin a GETS or GETX whenever its terminal cache is at rest, and there is a run in which it completes: the copy is readable, in M after a GETX, and holds the last value, which a GETX has just stored anew. |
| CoherenceProgress.RunCompletes | zsim/src/coherence_ctrls.h:465-472 | Every run of finishing steps that ends a core's access contains its completion: nothing else takes the access off the cache. |
| CoherenceProgress.EvictionCompletes | zsim/src/coherence_ctrls.cpp:56-85 | A cache at rest may evict its line whatever its children hold, and there is a run that leaves the slot empty. |
| CoherenceProgress.StepWorks | zsim/src/coherence_ctrls.cpp:56-342 | Every step but the start of an access or eviction uses up some of a measure linear in the depth of the tree: the phases ahead, a whole access at each cache above for a request on its way, two per sharer and per exclusive entry, one per lock open to an invalidation. |
| CoherenceProgress.ArriveWorks | zsim/src/coherence_ctrls.h:306-325 | A request on its way up has paid for the whole access that it starts at the parent; a skipped put ends. |
| CoherenceTheorems.HeldMoves | zsim/src/coherence_ctrls.h:397-403 | A cache whose bottom lock is held can proceed, or a cache below it can (induction down the tree). |
| CoherenceTheorems.OwnMove | zsim/src/coherence_ctrls.h:347-380 | An access that holds both locks and has no invalidation outstanding has a next move of its own. |
| CoherenceTheorems.WaiterMoves | zsim/src/coherence_ctrls.h:306-325 | A request travelling up proceeds, or the access above it does (induction up the tree). |
| CoherenceTheorems.DirtyDataKept | zsim/src/coherence_ctrls.cpp:56-186 | The last stored value is in memory, in a copy marked M, or in a copy whose writeback has been reported: it is never lost. |
| CoherenceTheorems.UpToDateBelow | zsim/src/coherence_ctrls.cpp:213-342 | From any valid copy the chain of exclusive directory entries leads to a copy with the last stored value. |
| CoherenceTheorems.UpToDateAbove | zsim/src/coherence_ctrls.cpp:162-186 | A clean up-to-date copy has an up-to-date ancestor all the way to memory, or a dirty one on the way. |
| CoherenceTheorems.DirectoryExactAtRest | zsim/src/coherence_ctrls.h:180-199 | At a resting cache the sharer count is the size of the sharer set, a bit is set iff the child holds the line, and isExclusive holds iff the sole sharer is in E or M, in which case the parent owns the line. |
| CoherenceTheorems.GetSAnswer | zsim/src/coherence_ctrls.cpp:281-304 | A GETS is granted E iff the parent owns the line and no child holds it; it waits for a downgrade iff some child owns the line; it is never granted M. |
| CoherenceTheorems.GetXAnswer | zsim/src/coherence_ctrls.cpp:305-326 | When a store permission is granted, the requester is in M and every sibling is in I. |
| CoherenceTheorems.MemoryAnswer | zsim/src/mem_ctrls.cpp:31-44 | Memory answers a get with the last value stored, a GETX with M, and a GETS with a copy that a store may follow without a second request iff NOEXCL is not set; after a put it holds the last value itself. |
| CoherenceTheorems.DirtyCause | zsim/src/coherence_ctrls.cpp:119-160 | A line, or the writeback flag of its sweep, comes to say dirty only when the cache is granted or passed the right to write, or takes a child's dirty data. |
| CoherenceTheorems.LossCause | zsim/src/coherence_ctrls.cpp:56-186 | A valid copy is lost, or an exclusive one shared, only by an invalidation (INV exactly when it ends in I) or at the end of the cache's own eviction. |
| CoherenceTheorems.DirectoryCounts | zsim/src/coherence_ctrls.h:191-197 | During an access the entry is empty iff no child holds the line, and exclusive iff some child owns it. |
| CoherenceTheorems.LinkedStep | zsim/src/coherence_ctrls.cpp:201-211 | Sharer bits and requests in service always name existing children. |
| CoherenceTheorems.InvalidatedIsDowngrade | zsim/src/coherence_ctrls.cpp:162-186 | Any sequence of legal invalidations leaves a state unchanged, invalid, or shared where it was exclusive. |
| CoherenceRuns.StepKeeps | zsim/src/coherence_ctrls.cpp:56-342 | Every enabled step meets every assertion of the source on its path and keeps the protocol invariant. |
| CoherenceRuns.InvImpliesSingleWriter | zsim/src/coherence_ctrls.cpp:213-342 | If a cache holds the line in E or M, every cache that is neither its ancestor nor its descendant holds it in I. |
| CoherenceRuns.AncestorsHoldLine | zsim/src/cache.cpp:132-135 | Inclusion: when a cache holds the line, all its ancestors do. |
| CoherenceRuns.AncestorsOwn | zsim/src/coherence_ctrls.cpp:305-326 | When a cache owns the line, all its ancestors own it. |
| CoherenceRuns.StoreKeeps | zsim/src/coherence_ctrls.cpp:119-147 | A core that completes a GETX may write a new value: no other readable copy is left that would go stale. |
| CoherenceRuns.EvictDoneKeeps | zsim/src/coherence_ctrls.cpp:56-85 | After a victim's children are invalidated the writeback decision (nothing, PUTS or PUTX) keeps the invariant, reported writebacks turning E into M first. |
| CoherenceRuns.MemAccessKeeps | zsim/src/mem_ctrls.cpp:31-44 | Memory's grant of S, E or M, or its acceptance of a put, keeps the invariant at the root. |
| CoherenceRuns.ArriveKeeps | zsim/src/coherence_ctrls.h:306-325 | Taking both parent locks and resolving the race keeps the invariant; a skipped put leaves the line invalid. |
| CoherenceRuns.PutKeeps | zsim/src/coherence_ctrls.cpp:266-280 | A put removes the sharer and its data reaches the parent iff it was dirty. |
| CoherenceRuns.GetSKeeps | zsim/src/coherence_ctrls.cpp:281-304 | Granting E or S, or starting a downgrade, keeps the invariant. |
| CoherenceRuns.GetXKeeps | zsim/src/coherence_ctrls.cpp:305-313 | Taking an upgrading child off the directory before the sweep keeps the invariant. |
| CoherenceRuns.SweepDoneKeeps | zsim/src/coherence_ctrls.cpp:289-326 | Finishing a downgrade or a sweep, with the induced writeback, keeps the invariant. |
| CoherenceRuns.InvStartKeeps | zsim/src/cache.cpp:128-134 | An invalidation finds its line in the child's array, even while the child evicts it. |
| CoherenceRuns.InvDoneKeeps | zsim/src/coherence_ctrls.cpp:162-186 | Finishing an invalidation hands dirty data and the writeback flag to the parent. |
| CoherenceRuns.CoreDoneKeeps | zsim/src/coherence_ctrls.h:465-472 | A terminal cache ends a GETS readable and a GETX in M. |
| CoherenceInv.BccFits | zsim/src/coherence_ctrls.cpp:87-151 | The bottom controller's assertions hold and its silent transitions and requests are legal for the state they find. |
| CoherenceInv.EvictDoneFits | zsim/src/coherence_ctrls.cpp:56-85 | The eviction assertions hold and the request issued matches the state. |
| CoherenceInv.PutFits | zsim/src/coherence_ctrls.cpp:266-280 | A put finds its sharer bit set, and a PUTX finds the entry exclusive. |
| CoherenceInv.GetSFits | zsim/src/coherence_ctrls.cpp:281-304 | A GETS finds its own sharer bit clear. |
| CoherenceInv.GetXFits | zsim/src/coherence_ctrls.cpp:305-313 | A GETX finds its cache exclusive, and is no upgrade of an exclusive child. |
| CoherenceInv.SweepDoneFits | zsim/src/coherence_ctrls.cpp:289-326 | After the sweep the sent count equals numSharers and a reported writeback meets an owning cache. |
| CoherenceInv.InvDoneFits | zsim/src/coherence_ctrls.cpp:162-186 | The invalidation assertions of both controllers hold. |
| CoherenceInv.ArriveFits | zsim/src/coherence_ctrls.h:247-274 | Whatever intervened, the child's state is one that the race check accepts. |
| CoherenceInv.Update2 | zsim/src/coherence_ctrls.cpp:213-342 | A step that changes a cache and its parent keeps the invariant of the whole tree if the pair still fits together. |
| Controllers.MESIBottomCC.ProcessEviction | zsim/src/coherence_ctrls.cpp:56-85 | The in-place eviction issues the protocol step's request (PUTX iff dirty or told so); whichever protocol step the parent answers it with, memory's included, the line ends invalid, other lines untouched. |
| Controllers.MESIBottomCC.ProcessAccess | zsim/src/coherence_ctrls.cpp:87-151 | The in-place access asks the parent exactly when the protocol step does, and otherwise makes its silent transition; whichever step the parent answers it with, a GETS ends readable and a GETX or PUTX in M. |
| Controllers.MESIBottomCC.ProcessWritebackOnAccess | zsim/src/coherence_ctrls.cpp:153-160 | A reported writeback makes an owned line M. |
| Controllers.MESIBottomCC.ProcessInval | zsim/src/coherence_ctrls.cpp:162-186 | The in-place invalidation makes the protocol step's state change and reports a writeback iff one was pending or the line was M. |
| Controllers.MESITopCC.Visit | zsim/src/coherence_ctrls.cpp:224-236 | The loop over the children tells each sharer once, in ascending order, clears bits for INV only, and collects writebacks. |
| Controllers.MESITopCC.SendInvalidates | zsim/src/coherence_ctrls.cpp:213-247 | A downgrade of a non-exclusive entry is sent to nobody; otherwise every sharer is told, the count asserted equals numSharers, and the entry ends empty or non-exclusive. |
| Controllers.MESITopCC.ProcessEviction | zsim/src/coherence_ctrls.cpp:250-259 | Eviction sweeps the entry empty: the state in which the protocol's eviction step finds it. |
| Controllers.MESITopCC.ProcessPut | zsim/src/coherence_ctrls.cpp:266-280 | The PUTS and PUTX branches make the protocol step's directory and child state; the keep-exclusive flag leaves the entry alone and cleans the child's line to E. |
| Controllers.MESITopCC.GrantRead | zsim/src/coherence_ctrls.cpp:281-304 | A read is granted E and the entry to the child alone iff the entry is empty, the cache exclusive and the flag clear; otherwise S, after the sharers of an exclusive entry have been downgraded. |
| Controllers.MESITopCC.ProcessGetS | zsim/src/coherence_ctrls.cpp:281-304 | The GETS branch, downgrade included, ends in the directory and child state of the protocol steps. |
| Controllers.MESITopCC.GrantWrite | zsim/src/coherence_ctrls.cpp:305-326 | A write invalidates every other sharer in order and leaves the child the only, exclusive one, in M. |
| Controllers.MESITopCC.ProcessGetX | zsim/src/coherence_ctrls.cpp:305-326 | The GETX branch, sweep included, ends in the directory and child state of the protocol steps. |
| Controllers.MESITopCC.ProcessInval | zsim/src/coherence_ctrls.cpp:334-342 | A forward stops here; an invalidation or downgrade goes on to exactly the sharers that need it. |
| Controllers.SweepsAll | zsim/src/coherence_ctrls.cpp:224-238 | Visiting the sharers in order reaches each exactly once and leaves none. |
| Controllers.BelowAscends | zsim/src/coherence_ctrls.cpp:224-225 | The sharers are visited in ascending order. |
| Controllers.SweptIsInvals | zsim/src/coherence_ctrls.cpp:224-236 | One sweep of the loop is what the protocol's finished invalidations of the same children add up to, and reports a writeback iff one of them was dirty. |
| Controllers.GetSMeets | zsim/src/coherence_ctrls.cpp:281-304 | The protocol's answer to a GETS in closed form: E and sole exclusive sharer, or S and one more shared sharer. |
| Controllers.GetXMeets | zsim/src/coherence_ctrls.cpp:305-326 | The protocol's answer to a GETX in closed form: the requester alone, exclusive, in M. |
| LockOrder.NoDeadlock | zsim/src/coherence_ctrls.h:306-404 | For any number of threads over any tree, in every reachable state: no lock has two holders, every thread waits only for a lock ranked above all it holds, and unless all threads are outside one can step. |
| LockOrder.CacheExclusive | zsim/src/coherence_ctrls.h:306-404 | In every reachable state at most one access has climbed into or past any non-terminal cache, and at most one access or invalidation is where it may change the cache's line. |
| LockOrder.WaitsUpward | zsim/src/coherence_ctrls.h:306-321 | Climbing, invalidating and relocking only ever wait for a higher-ranked lock than any held. |
| LockOrder.StepHolds | zsim/src/coherence_ctrls.h:382-404 | A step acquires at most the lock that was waited for, hand-over-hand release and relock included. |
| LockOrder.SomeThreadCanStep | zsim/src/coherence_ctrls.h:306-404 | The holder of the highest wanted lock waits for nothing. |
| LockOrder.ReachableGood | zsim/src/filter_cache.h:151-162 | Held lock sets of different threads stay disjoint over every run, filter locks included. |
| ZArrays.ZArray.Lookup | zsim/src/cache_arrays.cpp:98-116 | The lookup loop computes the address-to-line map, and panics for address 0. |
| ZArrays.ZArray.Install | zsim/src/cache.cpp:66-80 | A cache access to the array: a hit changes no entry of the map; a miss maps the address to the victim's line id, removes the victim's address and keeps every other line id; the victim is the one the policy picked among the candidates that `Offered` describes. |
| ZArrays.ZArray.Preinsert | zsim/src/cache_arrays.cpp:118-200 | The victim is the policy's pick among the candidates that `Offered` describes, with the chain from its first appearance to a seed, at most candidates/ways + 1 positions long. |
| ZArrays.ZArray.WalkAll | zsim/src/cache_arrays.cpp:127-165 | The loops leave exactly the candidates that `Offered` describes, which are those of the breadth-first walk; with fewer than the limit, one of them is a free line. |
| ZCandidates.CandidatesOffered | zsim/src/cache_arrays.cpp:127-165 | The walk offers, said without it: the seeds in way order; then, for one candidate after the other, all positions of its address but its own, way by way, from place ways + f*(ways-1) on; only past candidates that all hold lines; up to the limit, or with a free line among them if there are fewer. |
| ZCandidates.OfferedIff | zsim/src/cache_arrays.cpp:127-165 | That description determines the candidates: a list meets it iff it is the walk's. |
| ZWalk.PosIs | zsim/src/cache_arrays.cpp:110-110 | A position lies in the row of its way, at the set its hash function gives. |
| ZArrays.ZArray.Postinsert | zsim/src/cache_arrays.cpp:202-217 | The in-place shift keeps the table a permutation with every line where its address hashes to, and replaces the victim's address in the map. |
| ZArrays.ZArray.constructor | zsim/src/cache_arrays.cpp:70-88 | A fresh array is consistent and maps nothing. |
| ZArrays.ExpandOne | zsim/src/cache_arrays.cpp:138-160 | Expanding a candidate appends exactly its children, the overwritten self-visits excluded. |
| ZArrays.RecordChain | zsim/src/cache_arrays.cpp:187-194 | The recorded swap array is the parent chain and fits its fixed size. |
| ZArrays.ShiftLines | zsim/src/cache_arrays.cpp:204-209 | The swap loop moves each line one place along the chain. |
| ZArrays.ChoiceRelocates | zsim/src/cache_arrays.cpp:172-194 | The chain of any candidate's first appearance is a relocation with distinct positions that fits the swap array. |
| ZArrays.ShiftKeepsPerm | zsim/src/cache_arrays.cpp:204-209 | Shifting along distinct positions keeps the lookup table a permutation. |
| ZArrays.ShiftKeepsPlaced | zsim/src/cache_arrays.cpp:204-209 | After the shift every line still sits at a position its address hashes to. |
| ZArrays.PostinsertKeeps | zsim/src/cache_arrays.cpp:202-217 | Shift and address change together keep consistency and make exactly one replacement in the map. |
| ZArrays.NotAtAnyWay | zsim/src/cache_arrays.cpp:106-115 | An address found at none of its positions is not in the map. |
| ZWalk.GrowOk | zsim/src/cache_arrays.cpp:136-165 | The walk terminates without running off its fringe, and ends with enough candidates or an invalid one. |
| ZWalk.ExpandAdds | zsim/src/cache_arrays.cpp:141-159 | Each expanded candidate adds exactly ways - 1 new candidates. |
| ZWalk.ExpandOk | zsim/src/cache_arrays.cpp:141-160 | Expansion keeps every candidate a position of its parent's line with the line id found there. |
| ZWalk.ChainRelocates | zsim/src/cache_arrays.cpp:187-194 | The chain from a first appearance never repeats a line or position, even when the walk has cycles. |
| ZWalk.ChainShort | zsim/src/cache_arrays.cpp:187-194 | A chain from index i has at most i/ways + 1 entries. |
| ZWalk.ParentOfFirst | zsim/src/cache_arrays.cpp:174-181 | The parent of a first appearance is itself a first appearance. |
| ZWalk.RepeatedChild | zsim/src/cache_arrays.cpp:141-159 | A later appearance of a line has an earlier one among the candidates. |
| Barriers.Barrier.Join | zsim/src/barrier.h:124-163 | Join from OFFLINE, or from LEFT when rejoinable, keeps all bookkeeping, cannot end a phase, wakes only waiting threads and does nothing else to others; the caller waits iff it was not woken. |
| Barriers.Barrier.Leave | zsim/src/barrier.h:166-178 | Leaving, running or waiting, keeps all bookkeeping and progress. It ends the phase iff the thread was the only running one, none is waiting ahead of the scan and some thread waits. Threads that LEFT, this one included, go OFFLINE iff that is the first or another 32nd phase end. |
| Barriers.Barrier.Depart | zsim/src/barrier.h:168-177 | The departure itself: the thread is LEFT, nothing else changes. |
| Barriers.Barrier.Sync | zsim/src/barrier.h:181-198 | Syncing keeps all bookkeeping and progress. It ends the phase iff the thread was the only running one and none is waiting ahead of the scan; threads that LEFT go OFFLINE iff that is the first or another 32nd phase end; the caller waits iff it was not woken again. |
| Barriers.Barrier.ScanOne | zsim/src/barrier.h:258-271 | One turn wakes the next thread iff it waits, by a compare-and-swap that succeeds, and records its place. |
| Barriers.Barrier.CheckRunList | zsim/src/barrier.h:256-273 | The wake scan fills the room or reaches the end of the list; every waiting thread it passes runs, and nothing happens to threads that are not ahead of it. |
| Barriers.Barrier.CheckEndPhase | zsim/src/barrier.h:201-254 | A phase ends iff the scan is done, nobody runs and not all have left; the phase count, which equals the phase ends in the history, goes up by one. If it was a multiple of 32, no thread is LEFT any more, leftThreads is 0 and the list holds exactly the others; else no thread changes state and the list holds the same threads. The list is shuffled iff not all its threads can run at once. |
| Barriers.Barrier.Cleanup | zsim/src/barrier.h:216-235 | The compaction pass takes exactly the LEFT threads off the list, each replaced by the last one, and fixes every moved back pointer. |
| Barriers.Barrier.Rearrange | zsim/src/barrier.h:212-253 | Between two phases: a cleanup takes exactly the threads that LEFT offline and off the list; the order is the shuffle's when there are more threads than can run, and else what it was. |
| Barriers.Barrier.Shuffle | zsim/src/barrier.h:239-252 | The shuffle is the Fisher-Yates shuffle of the numbers drawn, and keeps list and back pointers inverse. |
| Barriers.Barrier.TryWakeNext | zsim/src/barrier.h:275-279 | Scan, phase end, scan: afterwards a waiting thread implies a running one; the phase ends iff nobody runs, no thread waits ahead of the scan and some thread waits; a thread that LEFT goes OFFLINE iff the phase ended and its number is a multiple of 32. |
| Barriers.Barrier.Enter | zsim/src/barrier.h:127-150 | A thread from OFFLINE is appended and waits; it is ahead of the scan. |
| Barriers.Barrier.Rejoin | zsim/src/barrier.h:129-150 | The in-place rejoin makes exactly the list, scan and back pointers of the specification, meets the source's assertion, and puts the thread ahead of the scan. |
| Barriers.Barrier.Enlist | zsim/src/barrier.h:127-150 | A joining thread is on the list once, ahead of the scan. |
| BarrierState.WokenOncePerPhase | zsim/src/barrier.h:256-273 | In any history the barrier can have, between two wakes of a thread it left or the phase ended. |
| BarrierState.PhaseEndOk | zsim/src/barrier.h:202-210 | The end-of-phase callback fires only when every thread on the list has synced in this phase or left, at least one having synced. |
| BarrierState.WakeOk | zsim/src/barrier.h:259-268 | Waking keeps the invariant, finds the futex word 1, and is the thread's first wake this phase unless it left. |
| BarrierState.StopOk | zsim/src/barrier.h:168-187 | Syncing or leaving while running keeps list, counters and back pointers. |
| BarrierState.EnterOk | zsim/src/barrier.h:126-128 | A thread from OFFLINE always fits on the list. |
| BarrierState.RejoinOk | zsim/src/barrier.h:129-150 | A rejoin ahead of the scan keeps the invariant. |
| BarrierState.BringBackOk | zsim/src/barrier.h:132-145 | The rejoin swap keeps the invariant. |
| BarrierState.ShuffleOk | zsim/src/barrier.h:241-251 | One shuffle swap keeps the invariant. |
| BarrierState.AnyOrder | zsim/src/barrier.h:239-252 | With more threads on the list than can run at once, the draws can bring about every order of them; otherwise they change nothing. |
| BarrierState.DropOk | zsim/src/barrier.h:219-231 | One compaction move keeps the invariant. |
| BarrierState.RejoinIff | zsim/src/barrier.h:129-150 | All the bookkeeping survives a rejoin iff a back pointer behind the scan names the thread and one that is not finds it ahead of the scan. |
| BarrierState.RejoinDistinctIff | zsim/src/barrier.h:133-143 | The list stays free of duplicates over a rejoin iff the source's assertion on the back pointer holds or is not reached. |
| BarrierState.LeaveRejoinIff | zsim/src/barrier.h:129-177 | A waiting thread may always leave; when it comes straight back, all the bookkeeping survives iff its back pointer is ahead of the scan or names it. |
| BarrierState.WokenRejoins | zsim/src/barrier.h:132-147 | A thread that has been woken since it came from OFFLINE can always rejoin. |
| BarrierState.WokenStays | zsim/src/barrier.h:124-178 | Whatever the barrier does, that remains so until the thread comes from OFFLINE again. |
| Barriers.StaleRejoin | zsim/src/barrier.h:105-178 | A run of real calls that ends in a barrier whose next rejoin fails the assertion and would make the list [1, 1]: the thread left before it was ever woken, with the back pointer it was allocated with. |
| DdrQueue.OvertakingPerRow | zsim/src/ddr_mem.cpp:383-418 | Over any run a waiting request is overtaken at most rowHitLimit times per distinct row ahead of it on arrival. |
| DdrQueue.OvertakingBounded | zsim/src/ddr_mem.cpp:383-418 | The sharper bound: the sum, over rows whose last request is ahead, of the limit minus that request's hit number. |
| DdrQueue.InsertAhead | zsim/src/ddr_mem.cpp:383-401 | An insertion ahead of a request uses up one unit of that bound. |
| DdrQueue.InsertBehind | zsim/src/ddr_mem.cpp:383-401 | An insertion behind leaves the bound no larger. |
| DdrQueue.PopBudget | zsim/src/ddr_mem.cpp:627-629 | Serving the front request leaves the bound no larger. |
| DdrQueue.LimitZeroIsFcfs | zsim/src/ddr_mem.cpp:383-418 | With limit 0 the list is exactly first-come first-served. |
| DdrQueue.HitsWithinLimit | zsim/src/ddr_mem.cpp:386-395 | Hit numbers never exceed the limit. |
| DdrQueue.Enqueue | zsim/src/ddr_mem.cpp:383-418 | The backward scan disturbs no other request. If m is the last place with the row and its hit number is below the limit, the request stands at m + 1 with the next hit number, whatever the bank shows; at the limit it goes last with 0. With no such request it goes last, as hit curRowHits + 1 iff the list is empty and the row open below the limit, else as 0. |
| DdrQueue.RunChained | zsim/src/ddr_mem.cpp:383-418 | Over any run a request with a hit number above 0 that is not in front stands right behind one of its row with one hit less. |
| DdrQueue.OvertakenMoves | zsim/src/ddr_mem.cpp:383-418 | Over any run a waiting request stands at its place on arrival, plus the times it has been overtaken, minus the requests served. |
| DdrTiming.LegalPairs | zsim/src/ddr_mem.cpp:547-599 | In any command trace of the controller every pair obeys its constraint: bursts do not overlap, tWTR after writes, ACTs of a bank tRAS + tRP apart, recovery before ACT and refresh, no ACT inside tRFC. |
| DdrTiming.LegalPrefix | zsim/src/ddr_mem.cpp:556-579 | Every column command goes to the open row at least tRCD after its ACT. |
| DdrTiming.OpenedBy | zsim/src/ddr_mem.cpp:570-573 | An open row was opened by an ACT with no refresh or other ACT to the bank since. |
| DdrTiming.ColAfterRefresh | zsim/src/ddr_mem.cpp:643-653 | After a refresh no column command comes before tRFC plus tRCD. |
| DdrTiming.IssueOk | zsim/src/ddr_mem.cpp:547-599 | The controller's per-bank bounds stay strong enough after each request, and lastCmdCycle < cmdCycle always holds. |
| DdrSlack.ColIsPrompt | zsim/src/ddr_mem.cpp:547-579 | A column command comes when it is decided on, as soon as its row is open, or as soon as some earlier command allows: one cycle earlier and that pair would break its constraint (or at the fixed first cycle, before any other). |
| DdrSlack.ActIsPrompt | zsim/src/ddr_mem.cpp:556-573 | An ACT comes with its request, after a precharge if the bank was open then, or as soon as some earlier command, tRRD in the bank or the activation window allows; never before any of them. |
| DdrSlack.IssueExact | zsim/src/ddr_mem.cpp:547-599 | Every bound the controller keeps after a request is the exact bound of some command in the trace: the bus of the last column command, each bank of the command that holds it longest. |
| DdrSlack.RefreshExact | zsim/src/ddr_mem.cpp:634-653 | So it is after a refresh. |
| DdrTiming.RefreshOk | zsim/src/ddr_mem.cpp:634-653 | The bounds stay strong enough after a refresh. |
| DdrMemories.Side.FindReady | zsim/src/ddr_mem.cpp:516-534 | The scan finds the first ready head-of-bank request in arrival order, else the soonest cycle one is ready. |
| DdrMemories.MinCmdCycleIs | zsim/src/ddr_mem.cpp:466-489 | The cycle computed for a request is the first at which its bank could take the column command: after the last one on the open row, else tRCD after some ACT that the bank, the activation window and the request's arrival allow, tRP after some precharge. |
| DdrMemories.Side.Add | zsim/src/ddr_mem.cpp:366-418 | A request enters the arrival queue and its bank's list, which keep holding the same requests. |
| DdrMemories.Side.Remove | zsim/src/ddr_mem.cpp:627-629 | The request served is the one popped from its bank's list. |
| DdrControllers.DDRMemory.Issue | zsim/src/ddr_mem.cpp:547-596 | The column command issues at the earliest cycle that bus, turnaround and row delay allow; the bank may be precharged once its row has been open for tRAS and the command has recovered, and no later. |
| DdrControllers.DDRMemory.Serve | zsim/src/ddr_mem.cpp:545-629 | Serving a request appends its commands to a legal trace, as promptly as `DdrSlack` says, and moves it from the queues to the served. The row stays open unless pages are closed and the next request of the bank's list is no further hit of this one's run. Deferred writes, and only they, are served from the write queue. |
| DdrControllers.DDRMemory.QueueChoice | zsim/src/ddr_mem.cpp:508-513 | With reads waiting, writes wait while they fill at most a quarter of their queue, go first beyond three quarters, and in between the controller goes on with what it did last; the chosen queue is never the empty one of the two. |
| DdrControllers.DDRMemory.LookAtIs | zsim/src/ddr_mem.cpp:316-330 | A request that comes to head its bank's list is worth looking at from the first cycle at which data could follow on the bus and its bank takes the command. |
| DdrControllers.DDRMemory.Pick | zsim/src/ddr_mem.cpp:505-543 | The decision: the first ready request of the prioritised queue, or exactly the cycle at which the bus frees up or the first front request becomes ready; never means no requests. |
| DdrControllers.DDRMemory.TrySchedule | zsim/src/ddr_mem.cpp:491-632 | One scheduling step serves the picked request or changes nothing; it asks to be called again iff requests are queued, strictly later, and at exactly the cycle the bus or a bank allows. |
| DdrControllers.DDRMemory.Accept | zsim/src/ddr_mem.cpp:345-423 | Queueing keeps every request in exactly one place and reports whether it heads its bank's list. |
| DdrControllers.DDRMemory.Enqueue | zsim/src/ddr_mem.cpp:296-343 | An arriving request is queued, or overflows exactly when a queue is full; the next tick moves forward exactly when the request heads its bank's list and could be looked at sooner, and with work pending one is always scheduled. |
| DdrControllers.DDRMemory.MoveIn | zsim/src/ddr_mem.cpp:432-450 | The oldest overflowing request moves in iff both queues have room, with this cycle as its arrival, and nothing else changes; if it heads its bank's list the next tick comes no later than the bus is worth looking at, else when the scheduling step asks. |
| DdrControllers.DDRMemory.Tick | zsim/src/ddr_mem.cpp:426-461 | A tick keeps timing, accounting and wake-up invariants and pins the next tick; one that has served a request and let another in to head its bank's list is followed by a tick that finds the bus taken. |
| DdrControllers.TickRuleIff | zsim/src/ddr_mem.cpp:440-450 | The wake-up rule of the tick is never later than the one of enqueue, and agrees with it iff a tick is due by the bound anyway or the request is ready by then. |
| DdrControllers.WastedTick | zsim/src/ddr_mem.cpp:432-461 | A run of two reads and a tick, with the tick scheduled next finding the bus taken. |
| DdrControllers.DDRMemory.RefreshStart | zsim/src/ddr_mem.cpp:636-642 | The refresh starts at the least cycle by which every bank may precharge and has issued its last command. |
| DdrControllers.DDRMemory.Refresh | zsim/src/ddr_mem.cpp:634-656 | A refresh starts at the least cycle that every bank allows, extends a legal trace, and closes all banks until exactly tRFC after it. |
| DdrControllers.DDRMemory.constructor | zsim/src/ddr_mem.cpp:172-185 | The initial controller satisfies all invariants. |
| DdrControllers.Apart | zsim/src/ddr_mem.cpp:296-314 | No request is in two of: read queue, write queue, overflow, served. |
| DdrControllers.EnqueueOk | zsim/src/ddr_mem.cpp:345-423 | Entering a queue keeps the one-place accounting of all requests. |
| DdrControllers.DequeueOk | zsim/src/ddr_mem.cpp:627-629 | Leaving a queue keeps the one-place accounting of all requests. |
| DdrRuns.ScheduledMemory.Run | zsim/src/ddr_mem.cpp:296-656 | Over system cycles, for any requests and refreshes in cycle order: every scheduled tick runs at the cycle it was scheduled for, as the source asserts, the ticks come to an end, and by then every request has been served exactly once. |
| DdrRuns.ScheduledMemory.Step | zsim/src/ddr_mem.cpp:426-461 | A tick leaves fewer requests waiting, or fewer in the overflow, or is one of at most two in a row without effect: the bus was taken, or no request was ready. |
| DdrRuns.ScheduledMemory.Tick | zsim/src/ddr_mem.cpp:426-461 | The event's cycle meets the source's assertion, and the next event is queued for a cycle that does again. |
| DdrRuns.ScheduledMemory.Enqueue | zsim/src/ddr_mem.cpp:296-343 | A request event keeps the scheduling event at a cycle that translates to the next tick. |
| DdrRuns.ScheduledMemory.RunUntil | zsim/src/ddr_mem.cpp:336-461 | The ticks due before any cycle come to an end. |
| DdrRuns.Total | zsim/src/ddr_mem.cpp:296-461 | Queued, overflowing and served requests add up to those that came. |
| DdrClock.RoundTrip | zsim/src/ddr_mem.h:250-258 | For memFreq at most half sysFreq and k >= 1, translating k to a system cycle and back gives k. |
| DdrClock.SysToMemIs | zsim/src/ddr_mem.h:250-250 | Memory cycle k is that of the system cycles x with (k-1)*sysFreq <= x*memFreq < k*sysFreq. |
| DdrClock.MatchingIs | zsim/src/ddr_mem.h:255-258 | The system cycle chosen for memory cycle k is the last to start by its middle. |
| DdrClock.EnqueuedCycleMatches | zsim/src/ddr_mem.cpp:336-338 | The event enqueued for a cycle not before now translates back to exactly that cycle. |
| DdrClock.SysToMemMonotone | zsim/src/ddr_mem.h:250-250 | Translation to memory cycles is monotone. |
| DdrClock.EnqueuedCyclePositive | zsim/src/ddr_mem.cpp:452-460 | A tick's next event is never queued for cycle 0, the value that means none. |
| FutexLock.MutualExclusion | zsim/src/locks.h:153-213 | For any number of threads and any interleaving: at most one thread holds the lock or is midway through releasing it, the word is 0 iff there is none, and never exceeds 2. |
| FutexLock.ReturnsWithLock | zsim/src/locks.h:153-202 | Over every run, from its futex_lock or futex_lock_nospin to its unlock a thread is in the call with the kind it asked for or holds the lock: such a call comes back only with the lock. Only a timed call can also have come back without. |
| FutexLock.QueuedStep | zsim/src/locks.h:153-202 | Any step of any thread leaves a thread in a lock call in it, or is its own step that found the word 0 and got the lock, or is the last exchange of a timed attempt that found it non-zero. |
| FutexLock.FreeLockTaken | zsim/src/locks.h:153-202 | On a free lock a thread in the call, unless asleep, holds it after at most two steps of its own, with word 1 if it still swaps and 2 once it exchanges. |
| FutexLock.TakenLockSleeps | zsim/src/locks.h:153-184 | On a taken lock a call makes five attempts if it spins and one if not, exchanges once, and sleeps on a word of 2; no other thread is needed or moved. |
| FutexLock.RousedForNothing | zsim/src/locks.h:166-202 | A sleeper roused while the lock is taken leaves 2 in the word and starts its call afresh, or gives up if it is timed. |
| FutexLock.Uncontended | zsim/src/locks.h:153-213 | Without contention a call is one swap and an unlock one decrement; a contended unlock stores 0 before it wakes. |
| FutexLock.NoLostWakeup | zsim/src/locks.h:204-213 | Whenever a thread sleeps, the lock is held with word 2, an unlocker still owes its store or wake, or a woken thread has yet to exchange. |
| FutexLock.AwakeCanStep | zsim/src/locks.h:204-213 | While a thread sleeps some thread that is awake can unlock, finish its unlock or exchange: sleepers need no timeout, signal or spurious return. |
| FutexLock.UnlockWakes | zsim/src/locks.h:204-213 | With only sleepers left, an unlock reaches the kernel and wakes one. |
| FutexLock.StepExcludes | zsim/src/locks.h:153-213 | Every atomic step moves the single holder as specified. |
| FutexLock.HasWaitersWrongIff | zsim/src/locks.h:215-221 | In every reachable state with the lock held and nobody queued, the waiter query answers true iff the holder acquired by exchange or a timed attempt has given up since. |
| FutexLock.HasWaitersSound | zsim/src/locks.h:215-221 | So the query has no false positives while the holder acquired by compare-and-swap and no timed attempt has given up. |
| FutexLock.HasWaitersFalsePositive | zsim/src/locks.h:215-221 | A run in which the query is true with nobody queued: the holder acquired by exchange. |
| FutexLock.HasWaitersAfterTimeout | zsim/src/locks.h:189-202 | A run in which the query is true with nobody queued: a timed attempt gave up. |
| RwMutex.Exclusion | zsim/src/mutex.h:111-127 | By the calls threads have made, over every run: while a wrLock that has come back has been followed by no wrUnlock or downgrade, no other thread's wrLock, rdLock or downgrade that has come back is without its unlock. |
| RwMutex.CallsMean | zsim/src/mutex.h:111-171 | A thread is in as a writer iff its last call is a wrLock that has come back, and as a reader iff it is a rdLock or downgrade that has. |
| RwMutex.ReadersShare | zsim/src/mutex.h:111-114 | With a reader in and nobody at the entrance another rdLock comes back by its own steps alone. |
| RwMutex.FreeMutexTaken | zsim/src/mutex.h:111-123 | On a free mutex a wrLock and a rdLock come back by their own steps alone. |
| RwMutex.ReleasesComplete | zsim/src/mutex.h:116-171 | A writer's wrUnlock or downgrade and a reader's rdUnlock come back by their own steps alone; the last reader frees wq, a downgrade keeps it unless a reader is waiting for it. |
| RwMutex.WriterNotOvertaken | zsim/src/mutex.h:120-123 | While a writer waits for the readers to leave nobody starts to read but a thread that was writing and downgrades. |
| RwMutex.DowngradeSeesOne | zsim/src/mutex.h:139-171 | A downgrade sees at most one counted reader, and sees one iff a reader waits for wq. |
| RwMutex.DowngradeIsAtomic | zsim/src/mutex.h:130-171 | From the downgrade until the thread's rdUnlock no writer is in, for every continuation. |
| RwMutex.UnlockCounts | zsim/src/mutex.h:116-118 | The count never goes below zero; the reader that finds 1 is the last and unlocks a held wq. |
| RwMutex.NoDeadlock | zsim/src/mutex.h:100-171 | Unless some thread is inside its critical section, a blocked operation means some step is enabled. |
| RwMutex.StepKeeps | zsim/src/mutex.h:111-171 | Each step keeps the ownership of rb and wq and the reader count in agreement. |
| FilterCaches.RunTrace | zsim/src/filter_cache.h:102-169 | Any trace of loads, stores, invalidations and context switches without a false hit, run through the filter, leaves the L1 lines, states and recency order as if every access reached the L1; a trace over non-zero lines has none. |
| FilterCaches.Perform | zsim/src/filter_cache.h:102-169 | Each operation leaves the L1 as if it had seen it, except exactly on a false hit: line address 0 found in an empty filter entry while the L1 would have to act. |
| FilterCaches.FilterCache.Load | zsim/src/filter_cache.h:102-112 | A load leaves the L1 as if it had seen it iff it misses the filter or the line is valid and the most recent of its set; every filtered line but 0 is; the line is then filtered for loads. |
| FilterCaches.FilterCache.Store | zsim/src/filter_cache.h:114-126 | A store leaves the L1 as if it had seen it iff it misses the filter or the line is in M and the most recent of its set; every filtered line but 0 is; the line is then filtered for stores. |
| FilterCaches.FilterCache.Replace | zsim/src/filter_cache.h:128-149 | A filter miss accesses the L1 and filters the line, for stores only after a store. |
| FilterCaches.FilterCache.Invalidate | zsim/src/filter_cache.h:151-162 | An invalidation reaches the L1 unchanged and the filter forgets the line. |
| FilterCaches.FilterCache.ContextSwitch | zsim/src/filter_cache.h:164-168 | A context switch empties the filter and leaves the L1 alone. |
| FilterCaches.RepeatedAccess | zsim/src/filter_cache.h:34-42 | An access changes nothing in the L1 iff the line is the most recent of its set, and valid for a load or modified for a store. |
| FilterCaches.AccessMoves | zsim/src/filter_cache.h:128-135 | What the L1 does on an access: one place leaves the recency order, the line's own on a hit and the policy's victim on a miss, and the line comes first; all others stay as they were, in order; a store leaves M, a load of a valid line its state, any other load what the parent grants. |
| FilterCaches.InvalidationAt | zsim/src/filter_cache.h:151-162 | An invalidation changes the line's first place only: INV to I, INVX to S if it was exclusive. |
| FilterCaches.DirectOneCopy | zsim/src/filter_cache.h:128-162 | Over any trace the L1 holds no two valid copies of an address, and right after an INV none and after an INVX none exclusive. |
| FilterCaches.ZeroAfterSwitch | zsim/src/filter_cache.h:51-51 | In every state right after a context switch an access to line 0 hits, and this is right iff line 0 is the most recent of its set and valid, or modified for a store. |
| FilterCaches.AddressZeroHits | zsim/src/filter_cache.h:51-51 | Line address 0 hits a new filter although the L1 holds nothing. |
| IdealLru.RunTrace | zsim/src/ideal_arrays.h:81-112 | After any safe trace of addresses, 0 included, the residents are exactly those with fewer than numLines other addresses used since; the first unsafe use, a new address after 0 while lines are empty, makes the array forget 0 although it is one of those. |
| IdealLru.IdealLRUArray.Access | zsim/src/cache.cpp:65-80 | An access, to any address, makes one step of the LRU stack if the address is present, no line is empty or 0 is absent; otherwise it forgets 0, which LRU keeps. |
| IdealLru.IdealLRUArray.Lookup | zsim/src/ideal_arrays.h:81-91 | The lookup finds exactly the residents, and a counted hit moves the address to the front. |
| IdealLru.IdealLRUArray.Preinsert | zsim/src/ideal_arrays.h:93-97 | The victim is the least recently used entry, an empty one while there is any. |
| IdealLru.IdealLRUArray.Postinsert | zsim/src/ideal_arrays.h:99-112 | Map, entry and list take the new address together, for any line id. |
| IdealLru.IdealLRUArray.Replace | zsim/src/ideal_arrays.h:93-112 | A miss is one step of the LRU stack, under the same condition. |
| IdealLru.SafeNext | zsim/src/ideal_arrays.h:99-112 | For every trace the next use keeps the array exact iff the address has been used, 0 has not, or as many addresses have been used as there are lines. |
| IdealLru.AddressZeroForgotten | zsim/src/ideal_arrays.h:103-106 | Two accesses to an array of two lines, 0 and another, and the lookup of 0 misses. |
| IdealLru.UseInOrder | zsim/src/ideal_arrays.h:87-88 | Moving any entry to the front with its own or a new address keeps the list the LRU order. |
| IdealLru.UseIndexed | zsim/src/ideal_arrays.h:102-106 | Erasing the old address and mapping the new keeps the map the exact index of the residents. |
| LruStacks.ResidentIff | zsim/src/ideal_arrays.h:81-112 | Independent definition of LRU: resident iff used, and fewer than n distinct others since. |
| LruStacks.RunIsMru | zsim/src/ideal_arrays.h:93-112 | An array of n lines holds the first n of the trace's most-recently-used order, for every n. |
| LruStacks.MruPlace | zsim/src/ideal_arrays.h:87-88 | An address sits right behind the distinct addresses used since its last use. |
| IntrusiveLists.InList.PushFront | zsim/src/intrusive_list.h:88-101 | Refines prepending to a sequence. |
| IntrusiveLists.InList.PushBack | zsim/src/intrusive_list.h:103-115 | Refines appending to a sequence. |
| IntrusiveLists.InList.PopFront | zsim/src/intrusive_list.h:117-124 | Refines dropping the first element; a no-op on an empty list. |
| IntrusiveLists.InList.PopBack | zsim/src/intrusive_list.h:126-133 | Refines dropping the last element; a no-op on an empty list. |
| IntrusiveLists.InList.Remove | zsim/src/intrusive_list.h:136-143 | Refines removing an element from anywhere, and detaches it. |
| IntrusiveLists.InList.InsertAfter | zsim/src/intrusive_list.h:145-151 | Refines insertion behind a given element. |
| IntrusiveLists.Node.Unlink | zsim/src/intrusive_list.h:50-57 | The neighbours are tied together and the node detached. |
| IntrusiveLists.Node.LinkPrev | zsim/src/intrusive_list.h:59-71 | The node goes between its new predecessor and what followed it. |

## Left out

* Other lines in the coherence state machine: it follows one line, and an access to another line appears as an eviction of this one at any time.
* The last-level cache has a single bank and memory a single child; `getParentId` is not modelled.
* `PREFETCH` requests, the non-inclusive hack and non-inclusive writebacks; `FWD` and `PUTX_KEEPEXCL` requests, which no cache sends, appear only in the controllers and the race check.
* Latencies, network round trips, statistics, event recording and timing records in `Cache::access`.
* Controllers.MESIBottomCC.ProcessAccess: the call of the parent is not nested; its answer is any state that a protocol step of the parent can leave.
* The composition of lookup, eviction and controller calls in one imperative `Cache::access`: `ZArrays.ZArray.Install`, `IdealLru.IdealLRUArray.Access` and the coherence steps each cover their part.
* Machine integer widths: counters, cycles and addresses are unbounded, except that the futex word's wrap at zero is written out and shown not to happen; the reader count is assumed to stay below 2^32 threads.
* `SetAssocArray`: it satisfies the same map specification by a direct argument.
* Replacement scoring: any policy that picks one of the candidates, and for the filter any that looks at a set's recency order and states.
* Masks: the set index is written `% numSets`, and the filter's or-ing of the process mask is an addition, as the mask lies above the address bits.
* FilterCaches.FilterCache.Load: filter operations are atomic and of one process; the lock-free read racing with an invalidation and invalidations for another process are not modelled.
* `ActWindow`: its bound is arbitrary, so nothing is claimed about four activations in a tFAW window.
* DdrTiming.LegalPairs: tRRD, tFAW and precharge commands, which the source folds into bounds, are not in the trace.
* Completion times reported to the core, and responses to writes.
* Scheduling of threads and the kernel's futex queue: sleeping compares the word atomically, a wake takes any one sleeper, and spurious returns are allowed. Fairness is not claimed, here or for the steps of the coherence protocol.
* The waits of `Join` and `Sync` after they release the scheduler lock; the methods report whether the caller waits. The scheduler's callback does not call the barrier back.
* Barriers.Barrier.Join: a thread that LEFT must be rejoinable, as otherwise the bookkeeping breaks (`RejoinIff`); what the barrier does from then on is not modelled.
* `rwmutex::upgrade`, which is `rdUnlock` followed by `wrLock`.
* IdealLru.RunTrace: once an unsafe use has made the array forget address 0, nothing is claimed about which addresses it holds.
* `IdealLRUPartReplPolicy`, `MockingjayReplPolicy`, `LookaheadPartitioner`, `UMonMonitor`, `H3HashFamily`, cores, decoder, configuration, statistics and virtualisation.
