# Cache simulator: a verified model

This project models the stateful heart of a multiprocessor cache simulator and proves what it is
for. The sources it models are C++; the paths below are relative to the root of that repository.

* **The cache.** A set-associative cache with LRU, FIFO or tree-PLRU replacement, write-back or
  write-through, over a next level. `CacheModel` is the cache as a value, `CacheObject` the object with its
  policy objects, counters and transition table, proved to take exactly the model's steps.
  `Recency`, `LruCache` and `LruTheorems` show that each LRU set is a truncated recency list and draw the
  consequences: hits are stack distances, bigger caches include smaller ones. `ColdRestart` and
  `ParallelReplay` bound what splitting a trace costs. `FifoPlruCache` is about eviction
  order, `BlockHistory` about which victims are written back and what state updates do, `WriteConservation`,
  `TwoLevels` and `LostWrites` about lost writes in one level and between two, `MissKinds` and `MesiCensus` about
  the statistics.
* **Coherence.** `Mesi`, `Moesi` and `Msi` are the three protocols' handlers, and `TransitionFlow` says
  what their counters count. `Snooping` runs the
  MOESI handlers on any number of caches with data values and a memory; `ProtocolSimulation` relates the three
  protocols run by run; `Directory` is the directory controller, and `DirectoryVsSnooping` says exactly
  when it and snooping agree; `DirectoryCosts` tells its latencies and dirty flag by the run alone.
* **Concurrency.** `ThreadPool`, `BusArbitration` and `AtomicMaximum` are step systems whose steps are
  the lock regions and atomic operations of the code, with any number of threads, any interleaving, and
  spurious wake-ups and failures.
* **Interconnect.** `MeshRouting` and `RingTorus` compare routes and hop formulas with all walks.
* **Buffers and traces.** `WriteCombining` and `VictimCache` refine lists, `VictimAccounting` follows every
  block. `TraceFormat` and `TraceFiles` are the printer and parser of trace files, `TraceForms` and `TraceJson` the
  ways a line may be written, `TraceDetection` the guess of the format, `TraceScan` the other reader.

A method models each operation that updates state in place and is proved against a function on values; the
theorems are about those functions. `dafny verify dfyconfig.toml` checks the project with Dafny 4.11.

## Where the code is not what its comments say

The model follows the code. Each point is a proved statement, some about what no comment mentions.

* Tree PLRU sends the next victim walk toward the leaf just used, not away from it
  (`src/core/replacement_policy.h:355-361`): a full set replaces its most recently used block.
* Re-inserting a removed address into the victim cache reuses the invalid slot without queue, map or size
  (`src/core/victim_cache.h:97-107`): `InsertKeepsConsistentIff` gives the exact condition.
* After an owner is dropped the directory keeps Exclusive or Modified with owner -1 and later lists
  processor 2^32 - 1 as a sharer (`src/core/multiprocessor/coherence_controller.cpp:46-58`, `:139-144`):
  `DirectoryDiffersIff` and `PhantomInvalidatedIff`.
* On a ragged mesh a route may pass a router that does not exist: `RouteExistsIffCorner`.
* A hexadecimal address of more than 32 bits is read as 0, and an over-wide processor id is dropped without an
  error (`src/utils/trace_parser.cpp:232-240`, `:317-329`), while an over-wide decimal address is refused: `WrittenReads`.
* An evicted block is written down by its first address only (`src/core/cache.cpp:126-131`), so a write is lost
  when the block straddles a block boundary of the lower level: `NoWriteLostIffAligned`.
* As many configurations as workers, empty traces not counted, can block a pool for good: `DeadlockIff`.
* The parallel replay scans a character and a hexadecimal number from each line
  (`src/utils/parallel_executor.h:247-250`), and so takes the processor id of a multiprocessor trace for the
  address, and reads decimal addresses as hexadecimal: `ReadersAgreeIff`.
* The documents also show traces as an indented JSON array (`traces/README.md:36-45`); such a file reads as nothing,
  since the format wants one object with `type` before `address` per line: `OnlyJsonIsRead`, `UnbracedFileIsEmpty`.
* They show atomic accesses `A 0x3000` and barriers `B` too (`docs/features/multiprocessor.md:150-164`); the parser
  refuses both: `OtherKindRefused` and `LoneWordRefused`.
* Invalidating a block drops its pending write (`src/core/cache.cpp:313-329`): `InvalidationLosesWrite`.
* An invalidation request tells no owner with an id from 2^31 on
  (`src/core/multiprocessor/coherence_controller.cpp:257-259`): `InvalidationTellsHolders`.
* Comparing ids as signed numbers, the directory reports the state of a line whose owner was dropped for id
  2^32 - 1 (`src/core/multiprocessor/coherence_controller.cpp:197-200`): `GetCacheLineState`.

## Model

| member | source | states |
|---|---|---|
| `LruTheorems.HitIffStackDistance` | src/core/cache.cpp:48-148 | For every cold LRU cache and every request sequence, the next access hits exactly when its block was touched before and fewer than `ways` distinct other blocks of its set were touched since |
| `LruTheorems.InclusionOnEveryTrace` | src/core/cache.cpp:151-171 | Of two cold LRU caches with one block size, where the first set count divides the second and the first has no more ways, the first holds a subset of what the second holds after every trace, and never has more hits |
| `LruTheorems.ObeyRefines` | src/core/cache.cpp:313-350 | Over every run of accesses, invalidations and state updates the ways, tags and policy order of all sets stay in step, and the valid tags read in policy order are the abstract recency lists run on the same events |
| `LruTheorems.ListsAreBounded` | src/core/cache.cpp:159-171 | After every such run each list is free of duplicates, no longer than the associativity, and names only blocks that map to its set |
| `LruTheorems.ServeRefines` | src/core/cache.cpp:48-148 | On plain traces the concrete hit and miss counters are those of the list rule, and the lists are those of the trace |
| `LruCache.AccessRefines` | src/core/cache.cpp:48-148 | One access moves its block to the front of one list and drops the tail past the associativity, leaves every other list alone, and hits exactly when the block was listed |
| `LruCache.AccessSetList` | src/core/cache.cpp:159-171 | The same for the accessed set alone: hit, fill of an invalid way and eviction of the last block all become one list step |
| `LruCache.InvalidateRefines` | src/core/cache.cpp:313-329 | Invalidating an address deletes exactly its block from its list and touches nothing else |
| `LruCache.SetStateRefines` | src/core/cache.cpp:332-350 | Setting a coherence state changes no list, except that setting Invalid deletes the block |
| `Recency.StackDistance` | src/core/replacement_policy.h:93-138 | For the abstract lists: a block is held exactly when it was touched and fewer than `ways` distinct others of its set were touched since (a definition by counting over the trace, not by lists) |
| `Recency.Inclusion` | src/core/replacement_policy.h:93-138 | The abstract inclusion law across set counts that divide and associativities that grow |
| `Recency.InclusionMisses` | src/core/cache.cpp:48-148 | Abstract miss counts fall (or stay) when sets multiply and ways grow |
| `Recency.ListIsStackPrefix` | src/core/replacement_policy.h:114-126 | A list of bounded length is always the prefix of the unbounded recency stack: truncation at each step loses nothing |
| `Recency.TouchDropsLast` | src/core/replacement_policy.h:114-126 | Replacing the last way of the order is what the truncating list rule does |
| `ColdRestart.ChunkedReplayBound` | src/utils/parallel_executor.h:152-188 | For every split of a trace into k chunks, each on cold lists, total misses lie between M and M + (k-1) * sets * ways, M being the misses of the unsplit run |
| `ColdRestart.LeadBoundsMisses` | src/utils/parallel_executor.h:272-298 | A run from a cold state misses at least as often as from any warmer state, and more often by at most the blocks the warm state is ahead |
| `ParallelReplay.ChunkedTallyBound` | src/utils/parallel_executor.h:152-188 | The bound for the cache itself and the partition the code makes; hits plus misses of the combined result is the number of addresses |
| `ParallelReplay.PartitionTrace` | src/utils/parallel_executor.h:226-267 | The addresses scanned from the lines of the file, in chunks: they concatenate to the addresses, none is empty, all but the last have exactly the chunk size (one address when the size is 0) and the last no more; and that partition is the only one. A file that cannot be opened gives none |
| `ParallelReplay.PartitionIsChunked` | src/utils/parallel_executor.h:226-267 | Those conditions determine the chunks |
| `ParallelReplay.ProcessTrace` | src/utils/parallel_executor.h:152-188 | The combined result is the sum over these chunks of their own tallies on fresh caches |
| `TraceScan.ReadersAgreeIff` | src/utils/parallel_executor.h:247-258 | On a file of 32-bit accesses written in any documented way the scan of the parallel replay and the trace parser agree on the addresses if and only if no line has white space in front and each line's first digits, those of its processor id if it has one, spell its address in hexadecimal |
| `TraceScan.FileScans` | src/utils/parallel_executor.h:241-259 | Scanning such a file, with blank lines, comments and trailing comments anywhere, gives for each line without white space in front the first digits read as hexadecimal: those of the processor id, or else of the address, decimal or not |
| `TraceScan.PrintedLineScans` | src/utils/parallel_executor.h:247-250 | The same for one printed line with any trailing comment |
| `TraceScan.SignedNumberScans` | src/utils/parallel_executor.h:247-250 | A signed number scans too, and a negative one wraps around in 32 bits |
| `ParallelReplay.ProcessChunk` | src/utils/parallel_executor.h:272-298 | Replaying a chunk on a fresh cache object gives the tally of the specification cache |
| `ParallelReplay.TallyIsChunkedMisses` | src/utils/parallel_executor.h:174-181 | The summed misses of the chunk caches are the chunked misses of the abstract lists |
| `ReplacementPolicies.PromoteKeepsOrder` | src/core/replacement_policy.h:100-107 | Moving a way to the front keeps the order a permutation of the ways |
| `ReplacementPolicies.LruVictimIsLeastRecent` | src/core/replacement_policy.h:114-126 | The victim is the valid way latest in the order; without a valid way in the order it is the first valid way, and without any 0 |
| `ReplacementPolicies.FifoScanFindsMinimum` | src/core/replacement_policy.h:161-174 | For any flags and stamps the scan finds the first of the valid ways with the smallest stamp, provided some valid way has a stamp below 2^64 - 1, and no way otherwise |
| `ReplacementPolicies.PointedWalk` | src/core/replacement_policy.h:354-364 | After updating toward any node of the tree, from any prior bits, the walk from the root reaches that node |
| `ReplacementPolicies.PlruPicksLastTouched` | src/core/replacement_policy.h:314-364 | For 2^k ways and any prior bits, the next victim after touching a valid way is that way: the code points toward the accessed leaf, where its comments say away |
| `ReplacementPolicies.PlruWalkEndsAtLeaf` | src/core/replacement_policy.h:314-333 | For 2^k ways and any bits the walk ends in the leaf range |
| `ReplacementPolicies.PlruVictimIsPointedAt` | src/core/replacement_policy.h:314-345 | For 2^k ways, any bits and any flags: the victim is the one way that every bit on its path points to, if that way is valid, and else the first valid way or 0; at most one way is so pointed to |
| `ReplacementPolicies.NewBitsPointToFirst` | src/core/replacement_policy.h:298-302 | The bits of a new set point to way 0 |
| `ReplacementPolicies.LRUPolicy.OnAccess` | src/core/replacement_policy.h:100-107 | The new order is the old one with the way moved to the front, unchanged when the way is unknown |
| `ReplacementPolicies.LRUPolicy.OnInstall` | src/core/replacement_policy.h:109-112 | As for an access |
| `ReplacementPolicies.LRUPolicy.SelectVictim` | src/core/replacement_policy.h:114-126 | The least recent valid way, else the first valid one, else 0 |
| `ReplacementPolicies.LRUPolicy.Reset` | src/core/replacement_policy.h:128-131 | The order is 0, 1, 2, ... again |
| `ReplacementPolicies.FIFOPolicy.OnInstall` | src/core/replacement_policy.h:156-159 | The way gets the next stamp of the counter |
| `ReplacementPolicies.FIFOPolicy.SelectVictim` | src/core/replacement_policy.h:161-174 | The first of the valid ways with the smallest stamp, else 0 |
| `ReplacementPolicies.PLRUPolicy.OnAccess` | src/core/replacement_policy.h:354-364 | The tree bits become those with the whole path to the leaf pointed at it |
| `ReplacementPolicies.PLRUPolicy.SelectVictim` | src/core/replacement_policy.h:314-345 | The leaf the walk reaches if it is a valid way, else the first valid way, else 0 |
| `FifoPlruCache.FifoEvictsInTurn` | src/core/cache.cpp:159-171 | In a cold FIFO cache without invalidations a miss in a set replaces the way numbered by the earlier misses there modulo the associativity, whatever the hits; so eviction j goes to way j mod n. Stated up to 2^64 - 1 installs in the set, where the stamp counter wraps |
| `FifoPlruCache.PlruReplacesMostRecent` | src/core/replacement_policy.h:314-364 | From any reachable state of a PLRU cache, with any accesses to other sets in between, the next miss in a full set throws out the block that set used last and keeps every other block |
| `FifoPlruCache.PlruPointsAtAccessed` | src/core/cache.cpp:93-138 | After any access that leaves its set full, the way chosen next is the way of the accessed block |
| `FifoPlruCache.MissDropsOnlyVictim` | src/core/cache.cpp:122-138 | A miss removes the victim and nothing else that was in the cache |
| `CacheModel.VictimAddressInverts` | src/core/cache.cpp:126-131 | For blocks of 32-bit addresses the recomputed victim address does not overflow and maps back to the same block, tag and set |
| `CacheModel.AccessKeepsInvariant` | src/core/cache.cpp:48-148 | Every access keeps: shapes in step, distinct valid tags in a set, valid exactly when the state is not Invalid, every valid tag representable as an address |
| `CacheModel.SetStateKeepsInvariant` | src/core/cache.cpp:313-350 | So do state updates and invalidations |
| `CacheModel.AccessSets` | src/core/cache.cpp:48-148 | An access changes one way and one policy state of one set: the hit way, or the victim way with the new block |
| `CacheModel.FindWayFrom` | src/core/cache.cpp:234-240 | The found way is valid and carries the tag; -1 means no way does |
| `CacheObject.Cache.constructor` | src/core/cache.cpp:17-46 | A new cache is the cold cache of its configuration, with its own policy objects, and a fresh footprint |
| `CacheObject.Cache.Access` | src/core/cache.cpp:48-148 | The object's whole new state, its result, and the whole new state of the next level (which has served exactly the issued requests in order) are those of the specification; `MissSends`, `HitSends` and `HistoryShows` say on the fields what those are |
| `CacheObject.Cache.FindBlock` | src/core/cache.cpp:229-240 | The way scan finds the way the specification finds |
| `CacheObject.Cache.ClassifyMiss` | src/core/cache.cpp:242-260 | COMPULSORY exactly when some way of the set is invalid, else CONFLICT when the associativity is below the set count and CAPACITY otherwise; `MissKindsCount` follows the counts over whole runs |
| `CacheObject.Cache.FindVictim` | src/core/cache.cpp:159-171 | The first invalid way, else the policy's choice |
| `CacheObject.Cache.InstallBlock` | src/core/cache.cpp:174-207 | The way holds the new block, the transition from the old state is recorded, the next level has been read |
| `CacheObject.Cache.WriteBackVictim` | src/core/cache.cpp:122-131 | Counts and sends down a write of the recomputed address exactly when the way is valid and its dirty flag is set or its state is Modified |
| `CacheObject.Cache.WriteThroughHit` | src/core/cache.cpp:78-82 | Writes through to the next level and leaves the block clean |
| `CacheObject.Cache.InvalidateBlock` | src/core/cache.cpp:313-329 | The whole new state after an invalidation |
| `CacheObject.Cache.UpdateMesiState` | src/core/cache.cpp:332-350 | The whole new state after a state update; no dirty flag and no tag of any way changes |
| `BlockHistory.MissSends` | src/core/cache.cpp:117-148 | From any reachable cache, a miss sends down a write into the block of its victim if and only if the victim is valid and its dirty flag is set or its state is Modified, then a read of the missed address; the write-back counter rises by one exactly then |
| `BlockHistory.HitSends` | src/core/cache.cpp:66-100 | A hit sends down nothing but a write under write-through, which is counted |
| `BlockHistory.HistoryShows` | src/core/cache.cpp:48-148 | Over every run of accesses, invalidations and state updates from cold, the dirty flag and state of a resident block are what its own history says: installed by a write or a read, written under either policy, set by updates |
| `BlockHistory.EvictionWrittenBackIff` | src/core/cache.cpp:122-131 | After every such run a miss writes its valid victim back if and only if that history leaves it dirty or Modified |
| `BlockHistory.OwedIffWritten` | src/core/cache.cpp:66-139 | In a run of accesses alone a block is owed a write-back if and only if a write installed it, or wrote it under write-back, and it has not been installed anew since |
| `BlockHistory.WrittenVictimIsWrittenBack` | src/core/cache.cpp:122-131 | So in such a run a miss writes its valid victim back if and only if some request so marked it |
| `BlockHistory.SetStateChangesOnly` | src/core/cache.cpp:332-350 | A state update changes state and validity of the one block, and no dirty flag, tag, policy, counter or other block |
| `BlockHistory.InvalidateChangesOnly` | src/core/cache.cpp:313-329 | An invalidation does the same with Invalid, and counts a coherence miss exactly when the cache has the block |
| `BlockHistory.NoLostWriteUnlessInvalidated` | src/core/cache.cpp:332-350 | After a write to a block, in every run of accesses and state updates that never sets it Invalid, the block is resident with its dirty flag set, or a write into it was sent down at that step or later |
| `BlockHistory.InvalidationLosesWrite` | src/core/cache.cpp:313-329 | A write to a cold cache is lost when its block is invalidated next: the block is gone and no write was sent down |
| `BlockHistory.CoherenceMissesCount` | src/core/cache.cpp:322-327 | Over every run the coherence misses are the invalidations that found their block |
| `MissKinds.MissKindsCount` | src/core/cache.cpp:242-260 | After any requests from cold, the compulsory misses are the sum over the sets of the smaller of the misses there and the ways; all other misses are conflict misses when there are fewer ways than sets, and capacity misses otherwise |
| `WriteConservation.NoLostWrite` | src/core/cache.cpp:66-139 | Under either write policy, any replacement policy and any trace from cold, each written block is at the end either resident and in need of write-back, or a write to an address of that block was sent down at or after that write |
| `WriteConservation.WritesCoverWriteBacks` | src/core/cache.cpp:66-139 | Write-backs so far plus resident blocks still needing one never exceed the writes |
| `WriteConservation.HeldStaysHeld` | src/core/cache.cpp:66-139 | One access from any reachable state either keeps a block that needs write-back or writes it down |
| `WriteConservation.AccessAccounts` | src/core/cache.cpp:66-139 | One access raises write-backs plus dirty blocks by at most one, and only if it is a write |
| `TwoLevels.LevelsBalance` | src/core/cache.cpp:48-148 | For every run of two levels from cold: the lower one has read exactly once per miss of the upper one and written exactly once per write-back or write-through, and at each level hits plus misses are reads plus writes and the three kinds of miss add up to the misses |
| `LostWrites.NoWriteLostIffAligned` | src/core/cache.cpp:126-131 | For any two levels under any replacement and write policies, where the address space holds one more block of each upper set than it has ways: no run loses a write if and only if the upper block size divides the lower one, or the lower blocks are as large as the address space |
| `LostWrites.SignedSizesAligned` | src/core/cache.cpp:21-25 | For caches whose size is a 32-bit signed number, as the constructor computes it, no run loses a write if and only if the upper block size divides the lower one |
| `LostWrites.MisalignedWriteIsLost` | src/core/cache.cpp:126-131 | Otherwise one run loses the write at the second lower block boundary: filling the set from cold and missing once more evicts its block, whose one write-back goes to the lower block before the boundary |
| `LostWrites.DoomedIsEvicted` | src/core/cache.cpp:159-171 | Requests for distinct blocks of one set fill its ways from cold, and one more evicts the first of them under LRU and FIFO and the last under tree PLRU |
| `LostWrites.ConfinedStep` | src/core/cache.cpp:66-139 | A cache dirty in one block only, and written only there, stays so, and writes down only the first address of that block or a write-through of a hit |
| `TwoLevels.CoarserIff` | src/core/cache.cpp:151-156 | Addresses that share an upper block always share a lower block if and only if the block sizes divide, or the lower blocks are as large as the address space |
| `TwoLevels.NoWriteLostBetweenLevels` | src/core/cache.cpp:174-226 | If they do, a written block is at every later point in need of write-back in one of the levels, or the lower level sent a write to it further down at or after that write |
| `TwoLevels.ServeKeepsHeld` | src/core/cache.cpp:210-226 | Serving any requests keeps a block that needs write-back, or writes it down |
| `MesiCensus.Census` | src/core/cache.cpp:185-206 | From every reachable cache and over every run of accesses, invalidations and state updates: ways in state m now = ways before + recorded transitions into m - recorded transitions out of m, and a way is valid exactly when its state is not Invalid |
| `MesiCensus.RecordedFlow` | src/core/mesi_protocol.cpp:156-162 | Recording a transition moves one unit of flow between two states and none when they are equal |
| `Mesi.MesiProtocol.HandleLocalRead` | src/core/mesi_protocol.cpp:18-39 | Next state by the MESI read rule; the transition table counts exactly this transition |
| `Mesi.MesiProtocol.HandleLocalWrite` | src/core/mesi_protocol.cpp:41-68 | The same for the write rule |
| `Mesi.MesiProtocol.HandleRemoteRead` | src/core/mesi_protocol.cpp:70-93 | The same for another cache's read |
| `Mesi.MesiProtocol.HandleRemoteWrite` | src/core/mesi_protocol.cpp:95-101 | The same for another cache's write |
| `Mesi.MesiProtocol.HandleEviction` | src/core/mesi_protocol.cpp:103-109 | The same for an eviction |
| `Mesi.MesiProtocol.RecordStateTransition` | src/core/mesi_protocol.cpp:156-162 | One counter goes up by one when the states differ, none otherwise |
| `Moesi.MoesiProtocol.HandleLocalRead` | src/core/moesi_protocol.cpp:16-43 | Next state by the MOESI read rule, with its count |
| `Moesi.MoesiProtocol.HandleLocalWrite` | src/core/moesi_protocol.cpp:45-70 | The same for the write rule |
| `Moesi.MoesiProtocol.HandleRemoteRead` | src/core/moesi_protocol.cpp:72-101 | The same for another cache's read |
| `Moesi.MoesiProtocol.HandleRemoteWrite` | src/core/moesi_protocol.cpp:103-128 | The same for another cache's write |
| `Moesi.MoesiProtocol.RecordStateTransition` | src/core/moesi_protocol.cpp:147-154 | One counter goes up by one |
| `Msi.MsiProtocol.HandleLocalRead` | src/core/msi_protocol.cpp:16-36 | Next state by the MSI read rule, with its count |
| `Msi.MsiProtocol.HandleLocalWrite` | src/core/msi_protocol.cpp:38-57 | The same for the write rule |
| `Msi.MsiProtocol.HandleRemoteRead` | src/core/msi_protocol.cpp:59-78 | The same for another cache's read |
| `Msi.MsiProtocol.HandleRemoteWrite` | src/core/msi_protocol.cpp:80-99 | The same for another cache's write |
| `Msi.MsiProtocol.RecordStateTransition` | src/core/msi_protocol.cpp:116-123 | One counter goes up by one |
| `TransitionFlow.MoesiCountersTell` | src/core/moesi_protocol.cpp:147-154 | After any run of events on any number of copies, each counter of the table is the number of events that took a copy from its row state to its column state; the copies in a state are the first ones plus transitions in minus transitions out; and the counters add up to the number of events |
| `TransitionFlow.MsiCountersTell` | src/core/msi_protocol.cpp:116-123 | The same for MSI |
| `TransitionFlow.MesiCountersTell` | src/core/mesi_protocol.cpp:156-162 | The same for MESI, which counts changes of state only |
| `Snooping.MoesiSafety` | src/core/moesi_protocol.cpp:16-133 | For any number of caches and every run: Modified and Exclusive exclude every other valid copy, at most one cache is Modified or Owned, every valid copy holds the last written value, and so does memory unless some cache requires write-back |
| `Snooping.ReadsReturnLastWritten` | src/core/moesi_protocol.cpp:16-43 | Every read of every run returns the value last written before it |
| `Snooping.MemoryServesUnsuppliedMiss` | src/core/moesi_protocol.h:66-70 | A miss that no cache can supply may read memory: memory holds the last written value |
| `Snooping.ExclusionKept` | src/core/moesi_protocol.cpp:16-128 | Each step keeps the exclusion |
| `Snooping.StepExists` | src/core/moesi_protocol.cpp:16-133 | Every action has a step from every system, so the runs spoken of exist |
| `ProtocolSimulation.Lockstep` | src/core/mesi_protocol.cpp:18-109 | Over every run, MOESI with O shown as S is MESI, and MESI with E shown as S (of MSI) is MSI, cache by cache |
| `ProtocolSimulation.WriteBackAccounting` | src/core/moesi_protocol.cpp:130-133 | MESI write-backs = MOESI write-backs + current Owned copies + Owned copies taken over by their own writers, on every run; so MOESI never writes back more; and MSI writes back as often as MESI |
| `ProtocolSimulation.ExclusionShows` | src/core/msi_protocol.cpp:16-103 | The exclusion of MOESI carries over to MESI and MSI runs |
| `ProtocolSimulation.CopiesOfRun` | src/core/moesi_protocol.cpp:16-128 | The states of a run with data are those of the run without, so both families of theorems speak of the same runs |
| `Directory.CoherenceController.ProcessRequest` | src/core/multiprocessor/coherence_controller.cpp:21-128 | For every 32-bit processor id: each request changes only its own line; grant, state, invalidated processors, hops and counters are what the entry calls for, as the rows of `DirectoryVsSnooping` and `DirectoryCosts` have it by snooping alone; no request reports data |
| `Directory.CoherenceController.InvalidateSharers` | src/core/multiprocessor/coherence_controller.cpp:243-263 | Lists each sharer but the excluded processor once, in some order, and the owner last |
| `Directory.CoherenceController.UpdateCacheState` | src/core/multiprocessor/coherence_controller.cpp:130-145 | Reporting Invalid drops the processor from sharers and owner, compared as a signed number; no other report changes an entry |
| `Directory.CoherenceController.GetCacheLineState` | src/core/multiprocessor/coherence_controller.cpp:185-203 | The state the entry implies for any 32-bit processor id, compared as a signed number, so that id 2^32 - 1 matches a missing owner; Invalid for an unknown line |
| `Directory.CoherenceController.GetOrCreateEntry` | src/core/multiprocessor/coherence_controller.cpp:239-241 | The entry of a known line, a new Invalid one with no owner otherwise; other lines are untouched |
| `DirectoryVsSnooping.DirectoryIsSnooping` | src/core/multiprocessor/coherence_controller.cpp:32-109 | For up to 2^32 - 1 processors and every run of reads and writes, the directory reports every processor's snooping MESI state, and a write is told to invalidate exactly the other holders |
| `DirectoryVsSnooping.DirectoryNearlySnooping` | src/core/multiprocessor/coherence_controller.cpp:130-145 | With evictions reported, the only difference is S for a sole holder's E, and a write still invalidates every other holder and no other real processor |
| `DirectoryVsSnooping.DirectoryDiffersIff` | src/core/multiprocessor/coherence_controller.cpp:130-145 | The difference appears exactly when snooping has E and it is not so that this processor alone has requested the line since it was first read |
| `DirectoryVsSnooping.PhantomInvalidatedIff` | src/core/multiprocessor/coherence_controller.cpp:46-58 | A write is told to invalidate processor 2^32 - 1 exactly when an owner was dropped since the last write |
| `DirectoryVsSnooping.EvictionLosesExclusive` | src/core/multiprocessor/coherence_controller.cpp:46-58 | A three-step run on two processors that shows both |
| `DirectoryVsSnooping.DirectoryTracksObedientCaches` | src/core/multiprocessor/coherence_controller.cpp:21-145 | Caches that take what they are granted and obey invalidations are always in the state the directory reports, evictions included |
| `DirectoryCosts.HopsOfSnooping` | src/core/multiprocessor/coherence_controller.cpp:32-109 | For every run of reads and writes: a read takes a further hop if and only if some other cache is Modified or Exclusive under snooping, and a write takes one for each other valid copy |
| `DirectoryCosts.HopsWithEvictions` | src/core/multiprocessor/coherence_controller.cpp:32-145 | With evictions reported: a read takes it if and only if an owner is missing or some other cache is Modified, or Exclusive and the only requester so far; a write takes one more exactly when an owner was dropped since the last write |
| `DirectoryCosts.DirtyIffWritten` | src/core/multiprocessor/coherence_controller.cpp:65-121 | Over every run of all six kinds of request, the dirty flag says whether a write was requested with no write-back granted since |
| `DirectoryCosts.GrantedIff` | src/core/multiprocessor/coherence_controller.cpp:21-128 | Over every run of requests: reads, writes and invalidations are granted always, a write-back to exactly the processor shown in Exclusive or Modified, and shares and flushes never |
| `DirectoryCosts.InvalidationTellsHolders` | src/core/multiprocessor/coherence_controller.cpp:106-113 | An invalidation leaves no holder shown, and tells every other holder but an owner with an id from 2^31 on |
| `DirectoryCosts.OtherRequestsShowNothing` | src/core/multiprocessor/coherence_controller.cpp:115-128 | Shares, flushes and write-backs change no state shown, tell nobody and take no further hop |
| `DirectoryVsSnooping.LinesAreIndependent` | src/core/multiprocessor/coherence_controller.cpp:239-241 | In any mix of actions on many lines, each entry is that of its own actions alone |
| `ThreadPool.DeadlockIff` | src/utils/parallel_executor.h:152-220 | A pool has a run that ends unfinished with no enabled step besides spurious wake-ups if and only if there is a configuration and no more workers than configurations with a non-empty trace |
| `ThreadPool.NoDeadlock` | src/utils/parallel_executor.h:38-108 | With more workers than configurations with a non-empty trace, every unfinished state of every run has an enabled step that is no spurious wake-up |
| `ThreadPool.DeadlockExists` | src/utils/parallel_executor.h:152-220 | Otherwise there is a run that ends unfinished with no step at all, empty configurations skipped on the way |
| `ThreadPool.NoLostWakeKept` | src/utils/parallel_executor.h:95-108 | The push under the lock and the notification after it are two steps; while any worker sleeps, workers on their way and notifications still owed cover the queued tasks, and every step keeps that |
| `ThreadPool.StepReducesWork` | src/utils/parallel_executor.h:152-220 | Every step except a spurious wake-up lowers the work left, which never is negative; a spurious wake-up raises it by one |
| `ThreadPool.RunsAreBounded` | src/utils/parallel_executor.h:152-220 | So a run is no longer than the work of its configurations plus twice its spurious wake-ups |
| `ThreadPool.StartsInOrder` | src/utils/parallel_executor.h:38-62 | In every run the tasks started so far are the first ones enqueued, in that order, and the queue is the rest |
| `ThreadPool.EachTaskRunsOnce` | src/utils/parallel_executor.h:38-62 | No task starts twice, only enqueued tasks start, and in a finished state every configuration and every chunk has run |
| `BusArbitration.BusSafety` | src/core/multiprocessor/interconnect.cpp:23-80 | For any number of senders and every run: at most one is between claim and release, and exactly then the bus is occupied; a free bus with sleepers has a woken sender on its way; queues plus received messages are the deliveries in order |
| `BusArbitration.QuiescentBus` | src/core/multiprocessor/interconnect.cpp:42-60 | Once all senders are idle and a queue is drained, its destination has received exactly the messages addressed to it, in delivery order, and every call of every sender was delivered or dropped once |
| `BusArbitration.BusNeverStuck` | src/core/multiprocessor/interconnect.cpp:27-34 | While any send is unfinished, some sender can move without a spurious wake-up |
| `BusArbitration.RunsAreBounded` | src/core/multiprocessor/interconnect.cpp:23-80 | A run has at most six steps for each call and two for each spurious wake-up; with the line above, every call is delivered |
| `AtomicMaximum.FinalMaximum` | src/core/multiprocessor/processor_core.cpp:398-424 | For any number of threads and every interleaving, with compare-exchange failing spuriously at will, the final value is the maximum of the local counts |
| `AtomicMaximum.MaximumRises` | src/core/multiprocessor/processor_core.cpp:412-416 | The shared value never falls |
| `AtomicMaximum.RunsAreBounded` | src/core/multiprocessor/processor_core.cpp:412-416 | A run of n threads has at most n * (n + 2) steps besides its spurious failures |
| `AtomicMaximum.NeverStuck` | src/core/multiprocessor/processor_core.cpp:412-416 | A thread that is not done can always move without failing spuriously, so every run can be finished |
| `MeshRouting.CalculateRoute` | src/core/multiprocessor/interconnect.cpp:209-242 | The route is Manhattan-many steps long, goes from source to destination by grid neighbours, and its k-th router is the X-then-Y one |
| `MeshRouting.RouteIsShortest` | src/core/multiprocessor/interconnect.cpp:209-242 | No walk in the grid from source to destination is shorter |
| `MeshRouting.WalksAreLong` | src/core/multiprocessor/interconnect.cpp:201-207 | Every grid walk takes at least Manhattan-many steps |
| `MeshRouting.RouteExistsIffCorner` | src/core/multiprocessor/interconnect.cpp:115-156 | All routers on the route exist exactly when the corner (destination column, source row) does |
| `MeshRouting.FullGridHasRoutes` | src/core/multiprocessor/interconnect.cpp:103-107 | On a full grid they always do |
| `MeshRouting.RaggedGridLacksCorner` | src/core/multiprocessor/interconnect.cpp:103-107 | Five processors in rows of three: the route from 4 to 2 passes router 5, which does not exist |
| `RingTorus.RingWalksAreLong` | src/core/multiprocessor/interconnect.h:283-290 | No walk around the ring is shorter than the hop count |
| `RingTorus.RingWalkExists` | src/core/multiprocessor/interconnect.h:283-290 | Some walk takes exactly the hop count |
| `RingTorus.RingSymmetric` | src/core/multiprocessor/interconnect.h:283-290 | Ring hops are symmetric, and 0 only from a node to itself |
| `RingTorus.RingTriangle` | src/core/multiprocessor/interconnect.h:283-290 | Ring hops satisfy the triangle inequality |
| `RingTorus.TorusIsTwoRings` | src/core/multiprocessor/interconnect.h:371-390 | Torus hops are the ring hops of the columns plus those of the rows |
| `RingTorus.TorusWalksAreLong` | src/core/multiprocessor/interconnect.h:371-390 | No walk on the torus is shorter than the hop count |
| `RingTorus.TorusWalkExists` | src/core/multiprocessor/interconnect.h:371-390 | Some walk takes exactly the hop count |
| `RingTorus.TorusMetric` | src/core/multiprocessor/interconnect.h:371-390 | Torus hops are a metric |
| `RingTorus.RoutersAreOnTorus` | src/core/multiprocessor/interconnect.h:311-316 | Every processor id lies on the torus whose height the constructor computes |
| `WriteCombining.WriteCombiningBuffer.constructor` | src/core/write_policy.h:142-147 | A new buffer of any size holds nothing |
| `WriteCombining.WriteCombiningBuffer.TryWrite` | src/core/write_policy.h:154-184 | The held addresses, most recent first, take one list step; the result is false exactly when the buffer is full and the address new, that is when the oldest is displaced; in the order of the slots the new address comes last or takes the place of the displaced one |
| `WriteCombining.WriteCombiningBuffer.Flush` | src/core/write_policy.h:190-199 | Returns each held address exactly once, in the order of the slots, and leaves the buffer empty |
| `WriteCombining.WriteCombiningBuffer.GetOccupancy` | src/core/write_policy.h:204-207 | The number of held addresses |
| `WriteCombining.HoldsMostRecent` | src/core/write_policy.h:132-212 | After any writes since a flush, exactly the min(n, d) most recently written of the d distinct addresses are held, each once |
| `WriteCombining.FlushesInFirstWriteOrder` | src/core/write_policy.h:154-199 | While all addresses written since a flush fit, a flush returns them in the order of their first writes |
| `WriteCombining.HeldOneMore` | src/core/write_policy.h:154-184 | The list of a run is built by those steps |
| `VictimCache.RunRefines` | src/core/victim_cache.h:64-145 | For every run of inserts, removals and range invalidations in which each insert is of a valid block and names no address left in an invalid slot, the slots refine a bounded FIFO list, the queue lists each valid slot once in that order, the map holds exactly the valid addresses with their slots, and the size is the valid count and within bounds |
| `VictimAccounting.BlocksAreAccountedFor` | src/core/victim_cache.h:64-145 | Over every such run the inserts of addresses not held equal the blocks held plus those taken out, those hit by range invalidations and those counted as evicted |
| `VictimAccounting.SearchFindsLatest` | src/core/victim_cache.h:64-145 | After every such run a search for an address finds the block last inserted with it, unless that was since removed, invalidated, or the oldest when a new address came into the full cache; and nothing else |
| `VictimAccounting.HeldByArrival` | src/core/victim_cache.h:96-133 | After every such run the blocks, in the order they would be evicted, are in the order their addresses were last brought in: updating a block does not renew it |
| `VictimAccounting.EvictsIffFull` | src/core/victim_cache.h:109-112 | Such an insert counts an eviction exactly when it brings in a new address while the cache is full |
| `VictimAccounting.HoldsTheLast` | src/core/victim_cache.h:96-133 | After inserts of distinct addresses alone the cache holds the last of them in order |
| `VictimCache.InsertKeepsConsistentIff` | src/core/victim_cache.h:96-133 | An insert into consistent structures keeps them consistent if and only if it is of a valid block whose address is in no invalid slot, or of an invalid block whose address is in one |
| `VictimCache.ReinsertionIsLost` | src/core/victim_cache.h:96-133 | Insert, remove, insert again: the block sits in its slot but not in queue, map or size |
| `VictimCache.InsertRefines` | src/core/victim_cache.h:96-133 | Such an insert is the list's: update in place, or drop the oldest when full and append |
| `VictimCache.RemoveRefines` | src/core/victim_cache.h:64-94 | A removal takes exactly the named block out of the list |
| `VictimCache.EvictRefines` | src/core/victim_cache.h:227-240 | Eviction drops the head of the list |
| `VictimCache.InvalidateFromRefines` | src/core/victim_cache.h:135-145 | Range invalidation, slot by slot, leaves exactly the blocks outside the range in their order |
| `VictimCache.VictimCacheObject.FindBlock` | src/core/victim_cache.h:50-62 | Found exactly when a valid slot has the address; one counter moves |
| `VictimCache.VictimCacheObject.SearchAndRemove` | src/core/victim_cache.h:64-94 | Result, counters and the whole new state |
| `VictimCache.VictimCacheObject.InsertBlock` | src/core/victim_cache.h:96-133 | The whole new state, for any block, and when an eviction is counted |
| `VictimCache.VictimCacheObject.EvictOldestBlock` | src/core/victim_cache.h:227-240 | The whole new state and when it counts |
| `VictimCache.VictimCacheObject.RemoveFromDataStructures` | src/core/victim_cache.h:212-225 | What happens to queue, map and size; slots are not touched |
| `VictimCache.VictimCacheObject.InvalidateBlocksInRange` | src/core/victim_cache.h:135-145 | The in-place loop is the slot-by-slot function |
| `VictimCache.VictimCacheObject.CountValidBlocks` | src/core/victim_cache.h:168-173 | The number of valid slots, which in a consistent state is the length of the queue |
| `TraceFiles.TraceRoundTrip` | src/utils/trace_parser.cpp:50-102 | Reading a file of accesses, each written in any documented way (letters in either case, hexadecimal or decimal, leading zeros, any spacing), with blank lines, comments and trailing comments anywhere and with the format guessed from the file, gives back the list exactly when every address and processor id fits 32 bits |
| `TraceFiles.FileRoundTrip` | src/utils/trace_parser.cpp:50-102 | In either text format such a file reads as its accesses cut to 32-bit fields, without those of an over-wide decimal address |
| `TraceFiles.RereadingIsStable` | src/utils/trace_parser.cpp:35-48 | Whatever text was read in whatever format, printing the accesses and reading again gives the same accesses |
| `TraceFiles.NeverDetectedAsJson` | src/utils/trace_parser.cpp:148-190 | Such a file is never taken for the structured format, unless an entry itself starts with a brace |
| `TraceFiles.GenerateTrace` | tools/trace_generator.cpp:213-223 | The written file is the lines of the drawn accesses, with processor ids exactly when there are processors |
| `TraceFiles.ParseLine` | src/utils/trace_parser.cpp:192-270 | The trimming and tokenising loops compute the meaning of the line, which the rows of `TraceForms` state for every way of writing one |
| `TraceFiles.ParseAddress` | src/utils/trace_parser.cpp:299-332 | The loops compute the address, with the decimal fallback |
| `TraceFiles.TraceParser.GetNextAccess` | src/utils/trace_parser.cpp:50-102 | The next access, how much text and how many lines were consumed for it, and the counters |
| `TraceFiles.TraceParser.ParseAll` | src/utils/trace_parser.cpp:35-48 | All accesses of the file from its start, whatever was read before; the totals run on |
| `TraceFiles.TraceParser.DetectFormat` | src/utils/trace_parser.cpp:148-190 | The guess from at most ten lines that are neither empty nor comments, as `DetectedIff` has it |
| `TraceForms.WrittenReads` | src/utils/trace_parser.cpp:192-270 | Every line that spells an access, with the kind and the processor letter in either case, the address hexadecimal in any case or decimal, leading zeros, any white space and a foreign first word allowed, and any trailing comment, reads as that access: same kind, an over-wide hexadecimal address as 0, an over-wide id dropped, an over-wide decimal address refused |
| `TraceForms.WrittenRoundTrip` | src/utils/trace_parser.cpp:192-270 | So it gives the access back exactly when the fields fit 32 bits |
| `TraceForms.OtherKindRefused` | src/utils/trace_parser.cpp:244-254 | Every line of two or three words with any other kind is refused as such, the documented atomic accesses included |
| `TraceForms.BadAddressRefused` | src/utils/trace_parser.cpp:256-260 | So is an address that does not begin with a decimal digit |
| `TraceForms.LoneWordRefused` | src/utils/trace_parser.cpp:212-223 | And a line of one word, as the documented barrier |
| `TraceForms.TrailingJunk` | src/utils/trace_parser.cpp:323-331 | A decimal address with something else behind its digits reads as those digits |
| `TraceForms.TrailingHexJunk` | src/utils/trace_parser.cpp:307-331 | A hexadecimal one reads as 0 |
| `TraceForms.TrailingIdJunk` | src/utils/trace_parser.cpp:230-240 | A processor id with something else behind its digits is those digits |
| `TraceForms.LineRoundTrip` | src/utils/trace_parser.cpp:192-270 | Every printed line with any trailing white space or comment parses, to the access with an over-wide address read as 0 and an over-wide processor id dropped |
| `TraceForms.FittingLineRoundTrip` | tools/trace_generator.cpp:213-223 | So a line comes back unchanged exactly when its fields fit 32 bits |
| `TraceJson.JsonRoundTrip` | src/utils/trace_parser.cpp:272-297 | Every line of the structured format, with any white space at its eight places, either case of the letter and of the digits, reads as the access it spells |
| `TraceJson.OnlyJsonIsRead` | src/utils/trace_parser.cpp:272-297 | Every other line is refused, and as no line of the format |
| `TraceDetection.JsonFileRoundTrip` | src/utils/trace_parser.cpp:50-102 | A file of such lines is taken for the structured format and reads as its accesses |
| `TraceDetection.UnbracedFileIsEmpty` | src/utils/trace_parser.cpp:272-297 | A file whose lines do not each open and close their braces, as the documented example over several lines, reads as nothing |
| `TraceDetection.DetectedIff` | src/utils/trace_parser.cpp:148-190 | The format of any file is decided by the first of its first ten relevant lines that opens a brace or has three words |
| `TraceDetection.GeneratedFormat` | tools/trace_generator.cpp:213-223 | A generated file is taken for the extended format exactly when one of its first ten accesses names a processor |
| `TraceDetection.NextCountsLines` | src/utils/trace_parser.cpp:50-61 | The lines counted for the next access and those still unread are together all the lines |
| `TraceFormat.HexRoundTrip` | src/utils/trace_parser.cpp:299-332 | A printed hexadecimal address reads as itself below 2^32 and as 0 from there on |
| `TraceFormat.NumberRoundTrip` | src/utils/trace_parser.cpp:317-326 | Conversion of a printed number succeeds exactly below 2^32, and then gives it back whole |
| `TraceFormat.MeaningFits` | src/utils/trace_parser.cpp:192-270 | Whatever parses has 32-bit fields |

## Left out

Of the cache:

- Prefetching and the stream buffer: all cache theorems are with prefetch off. A stream-buffer hit returns before anything is installed, so the list theorems would be false with it on.
- FifoPlruCache.FifoEvictsInTurn: says nothing past 2^64 - 1 installs in one set, where the stamp counter wraps around and the order of eviction with it.
- CacheObject.Cache.Access: leaves out the stream buffer and prefetching, and the access count and time of the block, which no modelled operation reads.
- CacheObject.Cache.InstallBlock: leaves out the access count, time and prefetched flag of the block, which no modelled operation reads.
- The Random and NRU policies, and PLRU with a number of ways that is no power of two (an assertion forbids it).
- Hits, misses and the other statistics as bounded integers: they are unbounded numbers.
- Checking a configuration: `ValidConfig` is what the checks leave, and `associativity * blockSize` is taken not to overflow.
- The next level's own next level: `Cache::access` passes none on, and the model's `Send` does the same.
- `MemoryHierarchy`, whose level counters count a fetch twice.

Of coherence:

- `lastAccess_` stamps, `checkPermission` and `handleWriteback`: they do not affect the states.
- DirectoryVsSnooping.DirectoryIsSnooping: for at most 2^32 - 1 processors, since id 2^32 - 1 is taken for a missing owner.
- The order in which sharers are listed for invalidation: the source iterates over an unordered set, so the contract leaves their order open.
- `ProcessorCore` obeying the directory: the source ignores the responses; `DirectoryTracksObedientCaches` is about caches that do obey.
- SnoopingController: its bodies are not part of this model.
- Which of several suppliers answers a MOESI miss, and in what order two write-backs reach memory: any choice is allowed in `Snooping`.

Of concurrency:

- Sleeps, latencies, statistics and the mutexes themselves: one step is one lock region or atomic operation.
- Shutting a pool down and exceptions inside tasks: runs are about tasks that finish.
- ParallelReplay.ProcessChunk: leaves out the prefetch count, which the simulator reports of itself; `ProcessTrace` leaves out its sum and the timing.
- Congestion, utilisation and latency counters of the bus.
- The barrier of the simulator, whose last arrival resets the count before the waiters have read it, and `MemoryPool`.

Of the interconnect:

- `MeshInterconnect::sendMessage` beyond the routers it indexes, the crossbar, and queues and latencies of ring and torus.
- RingTorus.TorusWalkExists: walks are over the full width by height torus; positions past the last processor count as nodes.
- 32-bit wrap-around of router ids, and the square root that gives the torus its width: the width is a parameter.

Of buffers and traces:

- WriteCombining.WriteCombiningBuffer.TryWrite: is for buffers with an entry, since the source is undefined on one without; its 64-bit clock is unbounded here.
- `sortBlocksByAddress`, which moves slots under the stored indices, and the hit rate of the victim cache.
- Files as such: a file is its text.
- TraceFiles.GenerateTrace: the random choices are parameters, the addresses the generator draws are not modelled.
- TraceFiles.NeverDetectedAsJson: leaves out files with an entry that itself starts with a brace, which a first word that names no processor can do.
- TraceScan.FileScans: leaves out lines whose first word names no processor.
- TraceScan.ScanHex: a number too wide for 32 bits, for which the C standard leaves `sscanf` undefined, wraps around here; a prefix without digits behind it does not match, as section 7.21.6.2 of ISO/IEC 9899:2011 has it.
- Error messages, and locale-dependent or non-ASCII white space.
