# Verified models of the storage, paging, tree, parser and threading programs

A Dafny project that models the algorithms of this collection of C programs and proves what they do on every input,
in every run, or in every interleaving. Sizes that the programs fix by macro (frames, keys, transactions, buffer
slots, buckets, workers) are arbitrary here. `dafny verify dfyconfig.toml` checks everything.

| program | files | main results |
|---|---|---|
| `mvcc-in-memory-key-value.c` | `WaitGraph`, `DeadlockDetector`, `MvccModel`, `MvccLog`, `MvccSections`, `MvccInterleaved`, `MvccDeadlocks`, `MvccAtomic`, `MvccAborts`, `MvccLedger`, `MvccWaits`, `KeyTable`, `MvccStore` | snapshot, repeatable and all-or-none reads with atomic calls; every answer, installed version, lock and wait told from the calls alone; well-formed version chains under any interleaving of critical sections and the exact condition for repeatable reads there; acyclic waits, exact deadlock aborts, progress; the exact deadlock answers between critical sections; which ABORTED transactions have their values installed; the deadlock detector answers "is there a cycle" |
| `page_cache_simulator.c` | `Paging`, `Lru`, `LruSimulator`, `Clock`, `ClockSimulator`, `ClockHand`, `Arc`, `ArcPolicy`, `ArcOverflow`, `PageList`, `ArcSimulator` | LRU and Clock are conservative, hence n-competitive against every demand policy; LRU inclusion; which page Clock and ARC give up, told from the trace; ARC's partition of pages, the exact condition for exceeding its capacity, and that it is exceeded at every size; ARC on its four linked lists |
| `R-Blacktree-file-2.c` | `RedBlackModel`, `RedBlackOrder`, `RedBlackRules`, `RedBlackRuns`, `RedBlackColours`, `RedBlackRepaired`, `RedBlackMemory`, `RedBlackHeap`, `RedBlackTree` | pointer insertion is stable sorted insertion in every run; the colour rules survive an insertion if and only if the fix-up does not end in the inner-child case, and so for whole runs; the colour and the children of every node after an insertion |
| `sql-lexer-analysis/` | `SqlGrammar`, `SqlParser`, `SqlCorrectness`, `SqlLexer`, `SqlRoundTrip` | the parse tables accept exactly the grammar with a stack of at most nine states; lexing and parsing undo printing |
| `filesystem.c` | `RecencyList`, `BlockCacheModel`, `BlockCacheRuns`, `BlockCacheFreshness`, `BlockCacheSmall`, `BlockCacheCollisions`, `BlockCacheOrder`, `Hashes`, `BlockCache` | buffer conservation; the pool runs out if and only if it is no larger than the cache; for every size of cache and pool, exactly when cached keys can be missed and when hits can be stale; without collisions it keeps the most recently requested keys |
| `bounded-producer-consumer-queue.c` | `BoundedQueue`, `QueueFlags`, `QueueProgress`, `QueueStuck`, `QueueRing` | FIFO for any number of threads; when a flag is up and who sleeps; no lost wake-up and guaranteed completion for one producer and one consumer; with equal crews some run gets stuck if and only if each has at least two threads |
| `pthread-hash-map.c` | `LockedHashMap`, `Hashes` | linearizability at lock/walk/act/unlock granularity, every call acting once |
| `task-word-count-pthread.c` | `WordCount` | the exact error of counting by chunks |

Each imperative program appears as methods over arrays, objects and fields, proved equal to functions on values; the
results about runs are proved of those functions. `Options`, `Counting` and `Lasting`
hold what several programs share.

## What the proofs found

- MVCC: `tx_commit` draws its timestamp (line 263) before it takes the lock (line 265). A repeated read can therefore
  change; `RepeatableExactlyWhenNonePending` gives the exact condition and `RepeatableReadFails` a schedule.
- MVCC: `tx_abort` does not look at the state, so it marks an already committed transaction ABORTED while its values
  stay installed (`AbortAfterCommit`). In every run the incarnation it marks has its commit in the log if and only if
  the state before the call was COMMITTED (`AbortedHasCommitIff`), and what the log holds is in the version lists
  (`LoggedValuesStay`). However else an active incarnation ends without a commit, by abort, deadlock or a second
  `begin_tx`, none of its values is ever installed (`AbortedValuesStayOut`).
- MVCC: a deadlock victim keeps its wait edges until it cleans up, and the detector looks for any cycle. A writer that
  would merely wait is aborted too if it asks in between: `DeadlockIff` gives the exact condition and
  `InnocentWriterAborted` a schedule. The waits of all other threads never form a cycle.
- ARC: a miss that should evict finds T2 empty and evicts nothing; the cache then holds one page too
  many for good. Some trace does this at every size of cache (`ArcOverflow.OverCapacityHappens`).
- ARC: the tests for an empty ghost list in lines 293 and 301 change nothing: the target moves by exactly one, within
  0..n, whatever their outcome (`ArcPolicy.EveryRequest`).
- Red-black tree: in the inner-child case the parent is not read again after the first rotation, so the wrong node is
  painted black; a run keeps the rules throughout if and only if no insertion of it meets that case. Reading the parent
  again repairs every insertion, leaves the entries in the stable order, and bounds the height of every run by the
  number of keys (`RedBlackRepaired`).
- SQL: "Parsed Successfully!" is printed when the statement is reduced, before the end of input is checked, so a text
  can be reported and then rejected.
- Block cache: hash chains share `next` with the recency list, so a cached key can be missed, be loaded a second time,
  and later be answered with the older copy. A key can be missed if and only if two keys in use share a bucket and
  cache and pool have room for two; an answer can be stale if and only if, besides, the pool has at least four buffers
  and the cache at least four places, or three and a third key is in use. Keys that share a bucket exist for every
  number of buckets. Of the pool only as many buffers as the cache has places, and one more, are ever used.
- Queue: each side has one flag, which a wake-up lowers although it wakes one thread only. With k producers and k
  consumers and something to move, some run gets stuck if and only if k is at least 2, whatever the number of slots.

## Model

| member | source | states |
|---|---|---|
| `WaitGraph.CycleIffOwnerReachesRequester` | mvcc-in-memory-key-value.c:142-165 | a new wait edge closes a cycle in an acyclic graph exactly when the lock owner already reaches the requester |
| `WaitGraph.FinishedGraphIsAcyclic` | mvcc-in-memory-key-value.c:93-118 | nodes closed only after all their successors rule out any cycle |
| `WaitGraph.AcyclicHasSink` | mvcc-in-memory-key-value.c:142-165 | following waits from any waiting node of a finite acyclic graph ends at a node that waits for nobody |
| `DeadlockDetector.DfsCycle` | mvcc-in-memory-key-value.c:93-109 | terminates; reports a cycle only if there is one; otherwise closes the node after everything it leads to and restores the stack flags |
| `DeadlockDetector.DetectDeadlock` | mvcc-in-memory-key-value.c:111-118 | for any number of nodes and any matrix, with one visited array for all roots: true if and only if the graph has a cycle |
| `MvccLog.ChainOfIsOk` | mvcc-in-memory-key-value.c:266-280 | the version list built by any commit log has strictly decreasing begin timestamps and intervals that meet exactly |
| `MvccLog.ExactlyOneCovers` | mvcc-in-memory-key-value.c:187-199 | exactly one version of such a list covers any start timestamp |
| `MvccLog.ScanIsSnapshot` | mvcc-in-memory-key-value.c:187-199 | the newest-first scan answers with the log's write of greatest commit timestamp not above the reader's |
| `MvccLog.SnapshotIsUnique` | mvcc-in-memory-key-value.c:187-199 | that answer is unique |
| `MvccLog.LaterEntriesInvisible` | mvcc-in-memory-key-value.c:187-199 | commits above a reader's timestamp do not change its snapshot |
| `MvccLog.SameScan` | mvcc-in-memory-key-value.c:187-199 | two logs that differ only in invisible commits show a reader the same version |
| `MvccSections.RunKeepsInv` | mvcc-in-memory-key-value.c:120-314 | every interleaving of critical sections keeps: chains equal to the commit log's, locks owned by live transactions, buffered keys locked by their writer, pending commits newer than installed ones on shared keys |
| `MvccSections.BuffersDisjoint` | mvcc-in-memory-key-value.c:202-256 | two active transactions never buffer the same key, also between critical sections |
| `MvccInterleaved.ChainsInEveryRun` | mvcc-in-memory-key-value.c:263-280 | in every interleaved run every version list is well formed and exactly one version covers any start timestamp |
| `MvccInterleaved.ReadIsNewestInstalled` | mvcc-in-memory-key-value.c:167-200 | in every interleaved run a read of an unwritten key answers with the newest installed commit not above its start |
| `MvccInterleaved.RepeatableExactlyWhenNonePending` | mvcc-in-memory-key-value.c:263-280 | reads of a key stay the same over every continuation if and only if no other thread that drew its commit timestamp before the reader began has yet to install a write to the key |
| `MvccInterleaved.PendingInstallIsSeen` | mvcc-in-memory-key-value.c:263-280 | the install of such a commit changes what the reader sees at once |
| `MvccInterleaved.RepeatableReadFails` | mvcc-in-memory-key-value.c:258-280 | a concrete schedule in which a transaction reads "-" and then "x" |
| `MvccDeadlocks.LiveWaitsAcyclic` | mvcc-in-memory-key-value.c:142-165 | in every interleaved run the waits of the threads that are not about to clean up form no cycle |
| `MvccDeadlocks.DeadlockIff` | mvcc-in-memory-key-value.c:142-165 | in every interleaved run a writer is told of a deadlock if and only if another transaction owns the key and that owner reaches the writer or some cycle is already there; a cycle is there only while a victim has yet to clean up |
| `MvccDeadlocks.InnocentWriterAborted` | mvcc-in-memory-key-value.c:210-224 | a schedule in which a writer whom nobody waits for is aborted because an earlier victim has not cleaned up |
| `MvccAtomic.CallIsBlockOfMoves` | mvcc-in-memory-key-value.c:120-314 | each API call run atomically equals its critical sections run back to back |
| `MvccAtomic.PerformKeepsInv` | mvcc-in-memory-key-value.c:120-314 | the whole invariant, with acyclic waits, holds after any sequence of calls |
| `MvccAtomic.SnapshotRead` | mvcc-in-memory-key-value.c:167-200 | in every run a read of an unwritten key never fails and returns the log's write of greatest commit timestamp not above the start, or the initial value |
| `MvccAtomic.RepeatableRead` | mvcc-in-memory-key-value.c:167-200 | whatever calls come between, one incarnation of a transaction reads the same version and value |
| `MvccAtomic.CommitSeenAllOrNone` | mvcc-in-memory-key-value.c:258-280 | of one commit a reader sees every key at that version or newer, or every key at an older one |
| `MvccAtomic.ReadsOwnWrite` | mvcc-in-memory-key-value.c:177-185 | a transaction reads back its own last buffered write |
| `MvccAtomic.WaitsInEveryRun` | mvcc-in-memory-key-value.c:142-165 | no wait cycle after any run; every wait is of an active transaction for another active one that owns a lock |
| `MvccAtomic.SomeOwnerCanRun` | mvcc-in-memory-key-value.c:142-165 | whoever waits, an active lock owner it waits for, directly or not, is not waiting |
| `MvccAtomic.DeadlockExactlyOnBackPath` | mvcc-in-memory-key-value.c:210-224 | a write aborts for deadlock if and only if the key's owner already reaches the requester through waits, and waits if and only if another owner does not |
| `MvccAtomic.LocksInEveryRun` | mvcc-in-memory-key-value.c:202-256 | lock owners are active; buffered keys are locked by their writer and buffered by nobody else; a buffer holds at most one write per key |
| `MvccAtomic.BufferNeverFull` | mvcc-in-memory-key-value.c:231-256 | with room for one write per key a granted write is never refused |
| `MvccAtomic.AbortedNeverInstalls` | mvcc-in-memory-key-value.c:258-314 | once an incarnation is no longer active no later call logs a commit for it |
| `MvccAtomic.AbortedValuesStayOut` | mvcc-in-memory-key-value.c:297-314 | after any call, a second begin included, that ends an active incarnation without commit, every version ever found is the initial one or another incarnation's |
| `MvccAborts.AbortedHasCommitIff` | mvcc-in-memory-key-value.c:297-314 | in every run tx_abort marks ABORTED an incarnation whose commit is logged if and only if it was COMMITTED before |
| `MvccAborts.LoggedValuesStay` | mvcc-in-memory-key-value.c:263-280 | in every run each write of a logged commit is in the version list of its key with its timestamp |
| `MvccAborts.AbortAfterCommit` | mvcc-in-memory-key-value.c:297-314 | begin, write, commit, abort leaves an ABORTED transaction whose value is the current one |
| `MvccLedger.EveryRead` | mvcc-in-memory-key-value.c:167-200 | every read of every run, from the calls and their answers: nothing unless the transaction is active and the key exists; else the last value granted to this incarnation for the key, or that of the latest commit to it not after its start |
| `MvccLedger.CommitInstalls` | mvcc-in-memory-key-value.c:258-280 | every commit of every run: each granted key gets its last granted value as newest version from the commit timestamp on, the version before it is retired, and all other keys keep their versions |
| `MvccLedger.EveryWrite` | mvcc-in-memory-key-value.c:202-256 | the answer of every write of every run: refused, changing nothing, unless the transaction is active and the key exists; granted a free or own key it is buffered while the buffer has room or holds the key; otherwise it waits, or is refused if the owner already waits for the writer |
| `MvccLedger.InactiveRefused` | mvcc-in-memory-key-value.c:202-263 | a transaction that is not active is refused every write and commit and reads nothing, and nothing changes |
| `MvccWaits.EdgeStep` | mvcc-in-memory-key-value.c:142-165 | a call adds a wait exactly for a writer told to wait and ends one exactly if the waiter is granted a key or one of the two begins, commits, aborts or is found deadlocked |
| `MvccWaits.EdgeIff` | mvcc-in-memory-key-value.c:120-314 | in every run a waits for b if and only if some call told it to and since then a was granted no key and neither began, committed, aborted or was found deadlocked |
| `MvccWaits.LockIff` | mvcc-in-memory-key-value.c:120-314 | in every run a holds a key if and only if some call granted it and a has not committed, aborted or been found deadlocked since |
| `MvccWaits.ActiveStep` | mvcc-in-memory-key-value.c:120-314 | a call activates whom it begins and deactivates whom it commits or aborts or who asks for a key whose owner reaches it through waits |
| `MvccWaits.MutualBlockDetected` | mvcc-in-memory-key-value.c:210-224 | once a waits for b, whatever other transactions do, b is aborted when it asks for a key of a |
| `MvccStore.Store.constructor` | mvcc-in-memory-key-value.c:64-90 | the initial store: one open initial version per key, no transactions, no waits |
| `KeyTable.Table.InitStore` | mvcc-in-memory-key-value.c:64-90 | every key gets its initial version as the only node of its list |
| `KeyTable.Table.PushVersion` | mvcc-in-memory-key-value.c:269-279 | on the linked versions: the old head is retired, a new node becomes the head, and no other key or lock changes |
| `KeyTable.Table.InstallWrites` | mvcc-in-memory-key-value.c:266-280 | on the linked versions: the loop over the write buffer installs every write in order, the result being the model's cells |
| `KeyTable.Table.FindVersion` | mvcc-in-memory-key-value.c:187-199 | the walk along the versions returns the value of the first that covers the reader's timestamp, or nothing |
| `KeyTable.Table.ReleaseAll` | mvcc-in-memory-key-value.c:282-284 | frees exactly the locks a transaction holds and leaves the versions alone |
| `MvccStore.Store.BeginTransaction` | mvcc-in-memory-key-value.c:120-139 | the in-place call is the model's begin step and keeps the invariant; refuses ids out of range |
| `MvccStore.Store.TryAcquireLock` | mvcc-in-memory-key-value.c:142-165 | grants, blocks or reports deadlock exactly as the model, which asks whether the new edge closes a cycle |
| `MvccStore.Store.Read` | mvcc-in-memory-key-value.c:167-200 | own buffer first, then the version scan, with the failure cases |
| `MvccStore.Store.WriteKey` | mvcc-in-memory-key-value.c:202-256 | the in-place call is the model's write step in all five outcomes and keeps the invariant |
| `MvccStore.Store.Commit` | mvcc-in-memory-key-value.c:258-294 | the in-place call is the model's commit step, releases locks and waits, and keeps the invariant; succeeds exactly for active transactions |
| `MvccStore.Store.AbortTransaction` | mvcc-in-memory-key-value.c:297-314 | the in-place call is the model's abort step and keeps the invariant |
| `MvccStore.Store.ClearOut` | mvcc-in-memory-key-value.c:150-151 | removes exactly the waits leaving a transaction |
| `MvccStore.Store.ClearAll` | mvcc-in-memory-key-value.c:286-287 | removes exactly the waits leaving or entering a transaction |
| `Paging.ConservativeIsCompetitive` | page_cache_simulator.c:35-167 | a policy that misses at most n times on any stretch of at most n distinct pages misses at most n times as often as any demand policy with n frames |
| `Paging.DemandMustMiss` | page_cache_simulator.c:35-167 | any demand policy misses again before it has served n + 1 distinct pages |
| `Lru.ResidentAfterHit` | page_cache_simulator.c:56-61 | a hit changes no residency |
| `Lru.ResidentAfterInsert` | page_cache_simulator.c:87-92 | a miss with room adds exactly the page |
| `Lru.ResidentAfterEvict` | page_cache_simulator.c:76-86 | a miss without room replaces exactly the least recently requested page |
| `Lru.ResidentIsListPrefix` | page_cache_simulator.c:49-93 | timestamp LRU is move-to-front: the page at place k of the recency list is resident exactly with more than k frames |
| `Lru.Inclusion` | page_cache_simulator.c:49-93 | pages resident with n frames are resident with more |
| `Lru.MoreFramesNeverMissMore` | page_cache_simulator.c:49-93 | added frames never turn a hit into a miss |
| `Lru.LruIsConservative` | page_cache_simulator.c:49-93 | at most n misses on any stretch of at most n distinct pages |
| `Lru.LruIsCompetitive` | page_cache_simulator.c:35-101 | from an empty cache at most n times the misses of any n-frame demand policy |
| `LruSimulator.FindPage` | page_cache_simulator.c:12-18 | the first frame holding the page, or -1 if there is none |
| `LruSimulator.OldestFrame` | page_cache_simulator.c:78-81 | a frame of least timestamp |
| `LruSimulator.Request` | page_cache_simulator.c:49-93 | one request keeps the frames equal to the LRU residents, stamped with last-request times; hit exactly if resident; a new page goes into the first empty frame, or that of the page requested longest ago, and no other frame changes |
| `LruSimulator.Simulate` | page_cache_simulator.c:35-101 | for any trace and frame count: outcomes, counts and final frames are those of LRU |
| `Clock.AfterHeldOnce` | page_cache_simulator.c:119-153 | no page is ever held in two frames |
| `Clock.SweepKeepsStretch` | page_cache_simulator.c:135-153 | within a stretch of at most n pages a sweep loads only frames not yet loaded in it |
| `Clock.StretchTags` | page_cache_simulator.c:119-153 | the misses of a stretch are counted by the frames loaded in it |
| `Clock.ClockIsConservative` | page_cache_simulator.c:119-153 | at most n misses on any stretch of at most n distinct pages |
| `Clock.ClockIsCompetitive` | page_cache_simulator.c:105-167 | from an empty cache at most n times the misses of any n-frame demand policy |
| `ClockHand.SweepStops` | page_cache_simulator.c:138-152 | the hand clears the referenced frames it passes and loads the page into the first one not referenced |
| `ClockHand.EveryRequest` | page_cache_simulator.c:119-153 | every request of every run: a hit moves nothing; a miss replaces the first page, from the pointer on, neither loaded nor requested since the hand last passed it, or the page at the pointer if there is none; the reference bits are set exactly for the pages loaded or requested since |
| `ClockSimulator.TurnHand` | page_cache_simulator.c:135-153 | the pointer loop ends, does to arrays and pointer what the second-chance queue does, and changes the page of one frame only, the one behind the pointer |
| `ClockSimulator.Request` | page_cache_simulator.c:119-153 | one request moves the frames as the queue does; hit exactly if held, and then frames and pointer stay |
| `ClockSimulator.Simulate` | page_cache_simulator.c:105-167 | for any trace and frame count: outcomes, counts, frames and pointer are those of the queue |
| `Arc.EveryRun` | page_cache_simulator.c:263-331 | partition, sizes and range of p hold after any trace |
| `Arc.PagesPartitioned` | page_cache_simulator.c:272-313 | every page ever requested is in exactly one of T1, T2, B1, B2, once; other pages in none |
| `Arc.ResidentsNeverShrink` | page_cache_simulator.c:226-313 | the resident count never decreases and never exceeds n + 1; p stays in 0..n |
| `Arc.RequestSizes` | page_cache_simulator.c:249-313 | one request exceeds the capacity exactly when it should evict and all residents are in T1 with a target that keeps them |
| `Arc.OverCapacityIff` | page_cache_simulator.c:249-261 | a run ends over capacity if and only if some request should have evicted and could not |
| `ArcPolicy.ListsInEveryRun` | page_cache_simulator.c:263-313 | in every run a page is in T1 or B1 if and only if it was requested exactly once, and in T2 or B2 if and only if more often; T1 and T2 list their pages by last request, newest first |
| `ArcPolicy.GhostsInEveryRun` | page_cache_simulator.c:226-313 | in every run B1 and B2 list their pages in the order they were given up, newest first |
| `ArcPolicy.EveryRequest` | page_cache_simulator.c:249-313 | every request of every run, without lists: a hit keeps the residents; a miss brings the page in and, if it was requested before or the cache is full, gives up the page requested longest ago among those requested once or those requested more often, as the target says; the target moves by one with requests for given-up pages |
| `ArcOverflow.OverCapacityHappens` | page_cache_simulator.c:226-313 | at every size n some trace leaves n + 1 resident pages, so the bound n + 1 is reached |
| `PageList.List.Contains` | page_cache_simulator.c:183-189 | walks the links; true exactly if some node holds the page |
| `PageList.List.Length` | page_cache_simulator.c:218-224 | walks the links; the number of nodes |
| `PageList.List.AddToFront` | page_cache_simulator.c:210-216 | a new node in front of the old ones |
| `PageList.List.RemoveNode` | page_cache_simulator.c:191-208 | the walk with prev and cur takes out the first node of the page and leaves the others in order, or changes nothing |
| `PageList.List.RemoveLru` | page_cache_simulator.c:226-247 | the walk to the last node cuts it off and returns its page; -1 from an empty list |
| `ArcSimulator.Simulator.constructor` | page_cache_simulator.c:180-181 | four empty lists, target and counters 0 |
| `ArcSimulator.Simulator.MakeRoom` | page_cache_simulator.c:249-261 | on the linked lists: the oldest page of T1 or T2 becomes the newest of B1 or B2 as the model says, -1 from an empty T2 included; the four lists stay apart |
| `ArcSimulator.Simulator.Promote` | page_cache_simulator.c:272-287 | on the linked lists: a hit is the model's request |
| `ArcSimulator.Simulator.Admit` | page_cache_simulator.c:291-313 | on the linked lists: each of the three kinds of miss is the model's request |
| `ArcSimulator.Simulator.Serve` | page_cache_simulator.c:269-313 | one request: hit exactly if the page is in T1 or T2, counted, and the lists those of the model |
| `ArcSimulator.Simulator.Run` | page_cache_simulator.c:263-331 | for any trace the four linked lists hold what the model holds and keep its invariant; misses are those of the trace and every request is counted once |
| `RedBlackOrder.FixInorder` | R-Blacktree-file-2.c:88-145 | no case of the fix-up reorders anything |
| `RedBlackOrder.InsertIsStable` | R-Blacktree-file-2.c:147-182 | insertion into a sorted tree puts the key after all keys not above it and before all above, through every fix-up case |
| `RedBlackRules.FixRules` | R-Blacktree-file-2.c:88-145 | from a path that obeys the rules the fix-up restores them if and only if it does not end in the inner-child case |
| `RedBlackRules.InsertKeepsRulesIff` | R-Blacktree-file-2.c:88-182 | insertion keeps the rules if and only if the path to the insertion point does not lead to the inner-child case |
| `RedBlackRules.InnerCaseBreaksRules` | R-Blacktree-file-2.c:110-117 | inserting 3, 1, 2 breaks the rules |
| `RedBlackRuns.BuildIsStableSort` | R-Blacktree-file-2.c:147-182 | in every run, inner cases included, the tree lists the stable sort of the keys |
| `RedBlackRuns.RunKeepsRulesIff` | R-Blacktree-file-2.c:88-182 | every tree along a run of insertions obeys the rules if and only if no insertion of the run meets the inner-child case |
| `RedBlackRuns.RotationsBounded` | R-Blacktree-file-2.c:30-145 | at most two rotations per insertion, and a black root |
| `RedBlackRuns.NondecreasingKeepsRules` | R-Blacktree-file-2.c:88-145 | nondecreasing keys of any length never meet the inner case and keep the rules |
| `RedBlackRuns.HeightIsLogarithmic` | R-Blacktree-file-2.c:88-145 | under the rules 2 to the height is at most (size + 1) squared |
| `RedBlackRuns.NondecreasingHeight` | R-Blacktree-file-2.c:88-145 | n nondecreasing keys build a tree of height at most 2 log2(n + 1) |
| `RedBlackColours.InsertColors` | R-Blacktree-file-2.c:88-182 | the colour of every node after an insertion: the root black, the grandparents the fix-up climbs past or rotates red, the parents and uncles black, the new node red, every other node as before |
| `RedBlackColours.InsertChildren` | R-Blacktree-file-2.c:30-182 | the children of every node after an insertion: without a rotation those of the tree with the new node hung in; otherwise the three nodes at the end of the climb and the node above them change as the outer or the inner case says, and no other |
| `RedBlackColours.InnerCaseLeaves` | R-Blacktree-file-2.c:110-117 | the inner-child case leaves the node on top, red unless it is the root, between its old parent, black, and its old grandparent, red |
| `RedBlackColours.BuildDistinct` | R-Blacktree-file-2.c:147-182 | every run keeps exactly the nodes made, each once |
| `RedBlackColours.RotationsTold` | R-Blacktree-file-2.c:88-145 | two rotations where the climb ends in the inner case, one in the outer case, none otherwise |
| `RedBlackRepaired.RereadKeepsRules` | R-Blacktree-file-2.c:110-117 | with the parent read again after the first rotation every insertion keeps the rules |
| `RedBlackRepaired.RereadIsStableSort` | R-Blacktree-file-2.c:110-117 | repaired, every run still lists the stable sort of the keys |
| `RedBlackRepaired.RereadHeight` | R-Blacktree-file-2.c:110-117 | repaired, n keys in any order build a tree of height at most 2 log2(n + 1) |
| `RedBlackMemory.RightRotated` | R-Blacktree-file-2.c:59-86 | the fields a right rotation leaves form the rotated subtree, parent pointers and the rest of the tree included |
| `RedBlackMemory.LeftRotated` | R-Blacktree-file-2.c:30-57 | the same for a left rotation |
| `RedBlackMemory.CloseUp` | R-Blacktree-file-2.c:30-182 | a subtree hanging consistently below a consistent path is one consistent tree |
| `RedBlackHeap.Family` | R-Blacktree-file-2.c:92-101 | parent, grandparent and uncle as the pointers reach them are those of the path |
| `RedBlackHeap.RecolouredMemory` | R-Blacktree-file-2.c:101-107 | painting grandparent, parent and a red uncle gives the recoloured tree |
| `RedBlackTree.RbTree.RotateRight` | R-Blacktree-file-2.c:59-86 | every field after the rotation, and that no other field changed |
| `RedBlackTree.RbTree.RotateLeft` | R-Blacktree-file-2.c:30-57 | every field after the rotation, and that no other field changed |
| `RedBlackTree.RbTree.RotateRightAt` | R-Blacktree-file-2.c:59-86 | anywhere in a consistent tree the pointers form the rotated tree afterwards |
| `RedBlackTree.RbTree.RotateLeftAt` | R-Blacktree-file-2.c:30-57 | the same for the left rotation |
| `RedBlackTree.RbTree.FixLeft` | R-Blacktree-file-2.c:108-118 | both cases below a left-child parent, with the parent not read again; the loop stops after either |
| `RedBlackTree.RbTree.FixRight` | R-Blacktree-file-2.c:131-141 | both cases below a right-child parent |
| `RedBlackTree.RbTree.Recolouring` | R-Blacktree-file-2.c:101-107 | the red-uncle case moves the problem two levels up |
| `RedBlackTree.RbTree.FixStep` | R-Blacktree-file-2.c:94-142 | one turn of the loop: recolour and climb, or rotate and stop |
| `RedBlackTree.RbTree.FixLoop` | R-Blacktree-file-2.c:92-143 | the loop ends, never follows a null grandparent, and leaves the model's tree with the model's rotation count |
| `RedBlackTree.RbTree.FixInsertion` | R-Blacktree-file-2.c:88-145 | the loop followed by painting the root black |
| `RedBlackTree.RbTree.FindParent` | R-Blacktree-file-2.c:150-164 | the descent reaches the model's insertion point |
| `RedBlackTree.RbTree.Attach` | R-Blacktree-file-2.c:166-179 | links the new red node on the side its key belongs |
| `RedBlackTree.RbTree.Insertion` | R-Blacktree-file-2.c:147-182 | the pointers form exactly the model's tree after the insertion; at most two rotations |
| `RedBlackTree.RbTree.Load` | R-Blacktree-file-2.c:222-227 | for any input the tree lists the stable sort of the keys and rotationcount is at most twice their number |
| `SqlGrammar.DerivedIsSentence` | sql-lexer-analysis/sql_parser.y:26-59 | every derivation spells SELECT columns FROM table WHERE id = num; and evaluates to its three strings |
| `SqlGrammar.SentenceIsDerived` | sql-lexer-analysis/sql_parser.y:26-59 | every such sentence, with any number of columns, is derived |
| `SqlParser.NoRecovery` | sql-lexer-analysis/sql_parser.tab.c:1219-1247 | no state shifts the error token |
| `SqlParser.TablesAreRows` | sql-lexer-analysis/sql_parser.tab.c:557-617 | the compressed tables say what each state shifts, symbol by symbol |
| `SqlParser.TablesAgree` | sql-lexer-analysis/sql_parser.tab.c:557-617 | in every reachable configuration and for every token the tables shift exactly what continues a sentence |
| `SqlParser.ReductionsAgree` | sql-lexer-analysis/sql_parser.tab.c:1061-1156 | a default reduction pops its right-hand side and enters the state of the next configuration |
| `SqlParser.Recover` | sql-lexer-analysis/sql_parser.tab.c:1219-1247 | the search for a recovering state always empties the stack and aborts |
| `SqlParser.Choose` | sql-lexer-analysis/sql_parser.tab.c:977-1055 | the default action without lookahead, or the table's action for the next token or end of input |
| `SqlParser.ReduceBy` | sql-lexer-analysis/sql_parser.tab.c:1061-1156 | state and value stacks after a semantic action |
| `SqlParser.Parse` | sql-lexer-analysis/sql_parser.tab.c:887-1156 | for every token stream the loop ends with the reference result, and its state stack never holds more than nine states |
| `SqlParser.StackNeverDeep` | sql-lexer-analysis/sql_parser.tab.c:887-1156 | the tables run as a machine hold at most nine states after any number of turns on any token stream |
| `SqlCorrectness.AcceptsExactlyTheGrammar` | sql-lexer-analysis/sql_parser.tab.c:557-617 | a token stream is accepted if and only if the grammar derives it |
| `SqlCorrectness.Recognise` | sql-lexer-analysis/sql_parser.tab.c:887-1156 | the parser loop answers true exactly for the token streams of the grammar |
| `SqlCorrectness.DerivationReported` | sql-lexer-analysis/sql_parser.y:26-59 | a derived stream is accepted with the three strings its derivation evaluates to |
| `SqlCorrectness.SentenceReported` | sql-lexer-analysis/sql_parser.y:27-34 | a sentence is reported as soon as it is complete and accepted exactly if nothing follows |
| `SqlCorrectness.ReportedIsSentence` | sql-lexer-analysis/sql_parser.y:27-34 | whatever is reported is a sentence at the front of the input |
| `SqlCorrectness.ReportedButRejected` | sql-lexer-analysis/sql_parser.y:27-34 | a stream is reported and then rejected if and only if a derived statement is followed by more tokens |
| `SqlLexer.NextMatches` | sql-lexer-analysis/sql_lexer.l:8-22 | the chosen rule matches the chosen lexeme |
| `SqlLexer.LongestEarliest` | sql-lexer-analysis/sql_lexer.l:8-22 | no rule matches a longer prefix, and no earlier rule matches this one |
| `SqlLexer.CutAtSymbol` | sql-lexer-analysis/sql_lexer.l:8-22 | any text may be cut at any character that is not part of a word; the parts are read on their own, with that character's token, if it has one, between them |
| `SqlRoundTrip.DecimalDigits` | sql-lexer-analysis/sql_lexer.l:20-20 | a printed number is digits that read back as the number |
| `SqlRoundTrip.LexUndoesPrinting` | sql-lexer-analysis/sql_lexer.l:8-22 | printing any tokens under any sufficient layout and lexing gives the tokens back |
| `SqlRoundTrip.LexShow` | sql-lexer-analysis/sql_lexer.l:8-22 | a written-out statement lexes to its tokens |
| `SqlRoundTrip.ShowLexParse` | sql-lexer-analysis/sql_parser.y:26-59 | printing any statement, lexing and parsing it reports the joined columns, the table and the condition |
| `SqlRoundTrip.RebuildIsStable` | sql-lexer-analysis/sql_parser.y:26-59 | whatever text was reported, a SELECT rebuilt from the report parses to the same report |
| `SqlRoundTrip.ColumnsSplit` | sql-lexer-analysis/sql_parser.y:39-44 | the joined column string splits back into the columns |
| `RecencyList.List.AddToFront` | filesystem.c:185-193 | keeps a well-formed doubly linked list and puts the node first |
| `RecencyList.List.RemoveLru` | filesystem.c:197-214 | detaches exactly the last node, or nothing from an empty list |
| `RecencyList.List.Detach` | filesystem.c:165-171 | closes the gap around a node and keeps the rest well formed |
| `RecencyList.List.MoveToFront` | filesystem.c:165-181 | the node first, the others in their old order, the links well formed |
| `RecencyList.CutLinked` | filesystem.c:165-171 | the links after taking out a middle node form the list without it |
| `RecencyList.PushedLinked` | filesystem.c:185-193 | the links after pushing a node form the longer list |
| `RecencyList.DroppedLinked` | filesystem.c:197-214 | the links after dropping the tail form the shorter list |
| `BlockCacheModel.NextKeepsInv` | filesystem.c:217-316 | every request keeps: each buffer on the free list once or held by one node, at most capacity nodes, no dangling bucket |
| `BlockCacheRuns.AfterInv` | filesystem.c:217-316 | that invariant after any sequence of requests |
| `BlockCacheRuns.BuffersConserved` | filesystem.c:93-128 | in every run free and cached counts add up to the pool and each buffer is accounted for exactly once |
| `BlockCacheRuns.HitReturnsLoaded` | filesystem.c:217-235 | after any run a hit returns data that an earlier request loaded for the same key |
| `BlockCacheRuns.ExhaustedIffPoolTooSmall` | filesystem.c:93-112 | some run exhausts the pool if and only if it has no more buffers than the cache has places |
| `BlockCacheFreshness.CollisionFree` | filesystem.c:217-290 | if no two keys in use share a bucket, a request hits exactly when its key is cached, and returns what was loaded last for it |
| `BlockCacheSmall.SmallNeverStale` | filesystem.c:217-290 | with at most two places, at most three buffers, or three places and two keys, no answer is ever stale, collision or not |
| `BlockCacheSmall.SingleNeverMisses` | filesystem.c:217-290 | with one place or one buffer a cached key is never missed |
| `BlockCacheCollisions.FollowsSketch` | filesystem.c:217-290 | while the pool lasts, evictions included, list and buckets are those of a run that knows only keys and load numbers |
| `BlockCacheCollisions.CachedKeyMissedIff` | filesystem.c:283-285 | for every cache, pool and set of keys: some run misses a cached key if and only if two keys share a bucket and cache and pool have room for two |
| `BlockCacheCollisions.StaleHitIff` | filesystem.c:283-285 | for every cache, pool and set of keys: some run answers with replaced data if and only if two keys share a bucket, the pool has four buffers or more, and the cache has four places or more, or three with a third key |
| `BlockCacheCollisions.CollidingKeysExist` | filesystem.c:52-60 | two different keys share a bucket for every number of buckets |
| `BlockCacheOrder.KeepsMostRecent` | filesystem.c:217-316 | in every run over keys that do not collide the cache holds the most recently requested keys, newest first, so a request hits exactly if its key is one of the last as many asked for |
| `BlockCacheOrder.BuffersInEveryRun` | filesystem.c:93-128 | in every run load number m gets buffer m until the cache has been full, and later loads the one buffer of the first places + 1 that no node holds |
| `BlockCacheOrder.BucketsInEveryRun` | filesystem.c:255-285 | in every run a bucket points at the node of the last load into it as long as that is cached, and at nothing otherwise |
| `Hashes.BlockHash` | filesystem.c:52-60 | the characters as digits in base 31, modulo 2^32, reduced to a bucket |
| `BlockCache.HashKey` | filesystem.c:52-60 | the loop computes the hash in 32-bit arithmetic and reduces it to a bucket |
| `BlockCache.Cache.constructor` | filesystem.c:65-163 | an empty cache; the free list links all buffers in order |
| `BlockCache.Cache.Walk` | filesystem.c:219-231 | from the key's bucket along `next`: the first node with the key at or behind the bucket's node, or none |
| `BlockCache.Cache.Get` | filesystem.c:217-235 | a found node moves to the front and its buffer is returned; otherwise nothing changes |
| `BlockCache.Cache.Acquire` | filesystem.c:93-112 | unlinks the first free buffer, or reports that there is none; links, counter and flags agree with the list |
| `BlockCache.Cache.Release` | filesystem.c:114-128 | a held buffer is cleared and linked in front of the free list, a free one left alone |
| `BlockCache.Cache.MakeRoom` | filesystem.c:255-271 | a full cache drops its last node, that node's bucket pointer and buffer, and nothing else |
| `BlockCache.Cache.Put` | filesystem.c:237-290 | enters the block exactly when the scan finds no node for the key |
| `BlockCache.Cache.Fill` | filesystem.c:305-309 | takes the first free buffer and writes the block into it, or reports that none is left |
| `BlockCache.Cache.Load` | filesystem.c:305-315 | serves a miss; the scan in cacheput never takes its early return |
| `BlockCache.Cache.Files` | filesystem.c:294-316 | pointers, buckets, counters and free list move exactly as the model and keep its invariant |
| `BoundedQueue.NextKeepsInv` | bounded-producer-consumer-queue.c:38-114 | every step of every thread keeps the ring arithmetic and the mutex discipline |
| `BoundedQueue.PutAppends` | bounded-producer-consumer-queue.c:59-61 | writing slot `in` appends to the contents |
| `BoundedQueue.GetRemoves` | bounded-producer-consumer-queue.c:97-99 | reading slot `out` removes the oldest item |
| `BoundedQueue.ConsumedIsPrefix` | bounded-producer-consumer-queue.c:38-114 | for any number of producers and consumers and any interleaving the consumed items are a prefix of the produced ones and the ring holds the rest, in = (out + count) mod size |
| `QueueFlags.FlagIff` | bounded-producer-consumer-queue.c:38-114 | in every run, for any number of threads, a flag is up if and only if a thread of its role found the buffer full, or empty, and the other role has moved no item since |
| `QueueFlags.SleepIff` | bounded-producer-consumer-queue.c:38-114 | in every run a thread is asleep if and only if it has waited with its flag up and no move has woken it since |
| `QueueFlags.MoveWakesOne` | bounded-producer-consumer-queue.c:64-69 | a move with the other flag up wakes one sleeper of that role, if there is any, and nobody else; with the flag down nobody |
| `QueueFlags.WaitsTold` | bounded-producer-consumer-queue.c:49-57 | a producer waits exactly when as many items as slots are unconsumed, a consumer exactly when none is |
| `QueueRing.Ring.Put` | bounded-producer-consumer-queue.c:59-61 | the array holds the old items followed by the new one |
| `QueueRing.Ring.Take` | bounded-producer-consumer-queue.c:97-99 | returns the oldest item and leaves the others |
| `QueueProgress.PairStep` | bounded-producer-consumer-queue.c:38-114 | with one producer and one consumer no wake-up is lost: a sleeper's flag is up, and a lowered flag means it need not wait |
| `QueueProgress.PairHasStep` | bounded-producer-consumer-queue.c:38-114 | every reachable state in which work is left has an enabled step |
| `QueueProgress.StepShrinks` | bounded-producer-consumer-queue.c:38-114 | every step makes progress |
| `QueueProgress.EveryRunFinishes` | bounded-producer-consumer-queue.c:38-114 | every run is bounded in length and one that cannot go on has consumed 1, 2, ..., n in order |
| `QueueStuck.StuckIffTwoOfEach` | bounded-producer-consumer-queue.c:38-114 | for k producers and k consumers of m items each and any number of slots: some run ends unfinished with nothing enabled if and only if k is at least 2 and m at least 1 |
| `LockedHashMap.NextKeepsInv` | pthread-hash-map.c:42-89 | every step of every thread keeps chains, locks and log consistent |
| `LockedHashMap.Linearizable` | pthread-hash-map.c:42-89 | in every interleaving every call acts at most once, every result is that of a plain map run one operation at a time in the order of acting under the locks, and no key is stored twice |
| `LockedHashMap.ReturnedActsFirst` | pthread-hash-map.c:42-89 | that order respects real time |
| `Hashes.MapHash` | pthread-hash-map.c:22-31 | the characters as digits in base 33 behind 5381, modulo 2^64, reduced to a bucket |
| `WordCount.CutWords` | task-word-count-pthread.c:96-105 | cutting a text adds a word exactly if the cut is inside one |
| `WordCount.TotalIsExact` | task-word-count-pthread.c:96-105 | the chunk counts add up to the words plus the chunk boundaries inside words, at most one per worker but the first |
| `WordCount.Worker` | task-word-count-pthread.c:22-52 | the scanning loop counts the words of its chunk |
| `WordCount.CountAll` | task-word-count-pthread.c:96-105 | in whatever order the workers add up, the total is exact in that sense |

## Left out

- MVCC: looking keys up by name (keys are given by index, an index out of range is an unknown name), string copying and truncation, printing, `dump_store`, overflow of the timestamp counter, and several threads driving one transaction id.
- MVCC: there is no first-committer-wins check in the code and none is claimed.
- Paging: page number -1, which the simulators use as a marker, is excluded from traces; statistics output.
- ARC: freeing of list nodes; a removed node is only no longer linked.
- Red-black tree: reading the input file, printing the traversal, allocation failure. `RD-Black-tree-1.c` is the same algorithm without the counter.
- SqlRoundTrip.ShowLexParse: numbers are unbounded, where `atoi` and `%d` agree for the range of int.
- SqlRoundTrip.RebuildIsStable: numbers are unbounded in the same way.
- SqlLexer.NumberValue: does not model `atoi` beyond the range of int; numbers are unbounded.
- SQL: the generated scanner's buffering (`lex.yy.c`), the token codes of `yytranslate` (symbol numbers are used directly), and the never freed semantic strings.
- Block cache: keys and data longer than their fields; the bucket table is a sequence-valued field, not an array, and a buffer is named by its number, its link being an entry of a sequence; the clean-up at the end of the program; allocation failure.
- Queue: spurious returns of futex_wait; progress of crews of different sizes, whose numbers of items do not balance (the safety results cover them).
- Hash map and block cache: characters above 127 in the hashes, whose sign is up to the compiler.
- Hash map: allocation failure; the linked chains are sequences of nodes walked by index.
- Word count: reading the file; counts beyond the range of long.
- `WAL-demo.c`: recovery tests the result of `sscanf` in a way that takes the same branch for every line, so a recovery theorem would not describe it.
- Socket, chat, io_uring, shell, signal, timer, kernel-module, eBPF and shared-memory programs: I/O plumbing over system calls.
- The remaining small exercises would only add easy members.
