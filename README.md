# Loom: deterministic concurrency control for nested transactions, modelled in Dafny

Loom executes blocks of nested TPC-C transactions deterministically. Each root
transaction is a tree of sub-transactions. Each sub-transaction has a read set,
a write set and a cost. After a block runs optimistically, Loom does three things:

- It builds a read-write dependency hypergraph. Each hyper-vertex is a root
  transaction.
- It picks the sub-transactions to roll back. It finds the strongly connected
  components and greedily takes the cheapest hyper-vertex out of each.
- It re-executes the rolled-back sub-transactions on a time-space graph that
  schedules them deterministically.

The repository also implements the protocols Loom is compared with: OptME,
AriaER, Harmony, Moss and FabricPP. Each has its own per-key reservation
table and its own conflict rule. A block generator builds the conflict indices
of a block, a small argument parser reads the protocol and workload
descriptors, and a bench script folds the trials of each configuration into
one row.

This project models that logic over maps, sets and sequences of ids, and
proves what each operation promises. The modules follow the source files:

| module (file) | source |
|---|---|
| `SetOps` (set_ops.dfy) | protocol/common.h: the shared set predicates |
| `LoomOrder` (loom_order.dfy) | protocol/loom/common.h: `cmp`, `idcmp`, `customCompare` |
| `LoomTable` (loom_table.dfy) | protocol/loom/Loom.cpp: reservation table, `Finalize`, `Execute` |
| `MinWIndex`, `MinWGraph`, `MinWScc`, `Scc`, `MinWGreedy`, `MinWEngine` | protocol/loom/MinWRollback.cpp: index, hypergraph, SCCs, weights, greedy choice, serial order, fast rollback |
| `DeterGraph`, `DeterMoves`, `DeterReExecution` | protocol/loom/DeterReExecute.cpp: the time-space graph |
| `OptMEUnits`, `OptME` | protocol/optme/utils.hpp and OptME.cpp |
| `AriaER`, `Harmony`, `Moss`, `FabricPP` | the other protocols' tables and rules |
| `TxIndex`, `TxGen` | utils/Generator/UTxGenerator.cpp |
| `ArgParse` | utils/UArgparse.hpp |
| `BenchAblation` | scripts/bench/bench-ablation.py |
| `Wrappers` | `Option` and `Result`, for the source's exceptions and missing values |

Pointers to vertices, hyper-vertices and transactions become ids. Tables of
objects become maps from ids to records, held in fields of a class when the
source updates them in place. Costs and ratios that the source keeps in
`double` are `real` here. Thread pools, futures and atomics wrap every
operation in the source. The model drops them and keeps the sequential effect.

## Model

| member | source | states |
|---|---|---|
| SetOps.HasIntersection | protocol/common.h:9-31 | the flag is raised iff the two sets share an element |
| SetOps.HasConflict | protocol/common.h:35-42 | true iff some element of set2 lies in set1 |
| SetOps.HasContain | protocol/common.h:61-73 | true iff set2 is a subset of set1; the early size test never rejects a subset |
| SetOps.HasContainKeys | protocol/common.h:76-88 | true iff every key of map2 is in set1 |
| SetOps.AreEqual | protocol/common.h:91-109 | true iff the sizes agree and set1 is inside set2, which is exactly set equality |
| SetOps.Diff | protocol/common.h:112-126 | the result holds exactly the cascade vertices outside the rollback set, and together with the shared part it rebuilds the cascade set |
| LoomOrder.CmpStrictTotal | protocol/loom/common.h:8-15 | `cmp` is irreflexive, asymmetric and transitive, and total on hyper-vertices with distinct ids |
| LoomOrder.CmpFirstIsCheapest | protocol/loom/common.h:8-15 | in a set of hyper-vertices with distinct ids, a member comes before all the others under `cmp` iff none costs less and none of equal cost has a smaller id: the pq head is the cheapest, ties to the smaller id |
| LoomOrder.CmpHasFirst | protocol/loom/common.h:8-15 | every non-empty set of hyper-vertices with distinct ids has a member that comes before all the others under `cmp` |
| LoomOrder.StrLessTotal | protocol/loom/common.h:18-22 | the string order `idcmp` relies on is total and asymmetric |
| LoomOrder.IdCmpStrictTotal | protocol/loom/common.h:18-22 | `idcmp` (larger id first) is a strict total order on sub-transactions with distinct ids |
| LoomOrder.BuildOrderIndex | protocol/loom/common.h:35-39 | the map's keys are the hyper-ids of the serial order; each maps to a position holding it, and no later position holds it (the last duplicate wins) |
| LoomOrder.CustomLessStrictTotal | protocol/loom/common.h:41-49 | `customCompare` is a strict total order on sub-transactions with distinct ids; an earlier serial position always comes first |
| LoomTable.ReserveGet | protocol/loom/Loom.cpp:379-397 | aborts iff a put block is recorded and is older than tx's block; an aborted call leaves the entry alone; otherwise an older get block is replaced by tx's block with tx as the only reader, tx joins the readers of its own block, and a newer get block leaves the entry unchanged; the put side never changes |
| LoomTable.PutVictims | protocol/loom/Loom.cpp:405-409 | the readers aborted by a put are exactly the reserved readers of a later block |
| LoomTable.ReservePut | protocol/loom/Loom.cpp:402-430 | an empty entry takes tx's block with one pending write and `next` unchanged; an equal block counts one more write; a newer block is pushed aside (its count becomes `next`, tx's block counts one); an older block keeps its count and `next` grows by one; the get side never changes |
| LoomTable.FinalizeGet | protocol/loom/Loom.cpp:283-292 | tx leaves the reserved readers of its block, and an empty set resets the get block to 0; other blocks are untouched |
| LoomTable.FinalizePut | protocol/loom/Loom.cpp:293-310 | the count of tx's block drops by one; at zero the next block takes over with `next`'s count, or the key is released |
| LoomTable.ReserveGetThenFinalize | protocol/loom/Loom.cpp:379-397 | a read reserved and then finalized by its only reader leaves the entry as it was |
| LoomTable.ReservePutThenFinalize | protocol/loom/Loom.cpp:402-430 | a write reserved and then finalized on an empty or same-block entry leaves the entry as it was |
| LoomTable.PushedAsideBlockComesBack | protocol/loom/Loom.cpp:415-421 | when a block takes the write over from the block right after it, finalizing its write hands the key back to that block |
| LoomTable.Table.ReserveGetKey | protocol/loom/Loom.cpp:379-397 | the key's entry becomes `ReserveGet` of the old one, and tx is marked aborted exactly when `ReserveGet` says so |
| LoomTable.Table.ReservePutKey | protocol/loom/Loom.cpp:402-430 | the key's entry becomes `ReservePut` of the old one and the put's victims are marked aborted |
| LoomTable.Table.Finalize | protocol/loom/Loom.cpp:280-311 | tx is committed; keys it read get `FinalizeGet`, keys it wrote get `FinalizePut` (in that order), and every other key is unchanged |
| LoomTable.Table.Execute | protocol/loom/Loom.cpp:354-366 | with the storage handlers of lines 100-123 installed: the entries become those of `ReadPass` (each read key reserved in turn, stopping right after the key that aborts tx) and, if tx survived, of `WritePass` over the write keys; `aborted` grows by exactly {tx} when a read failed, and otherwise by exactly the victims `WritePass` collects; local_get holds the read keys up to the stop and local_put every write key only after the whole read set; the body runs iff tx is not aborted |
| OptMEUnits.PartitionMembers | protocol/optme/utils.hpp:49-50 | `partition_copy` puts exactly the sorted units (their transaction has a sequence) on one side and the others on the other |
| OptMEUnits.PartitionKeepsUnits | protocol/optme/utils.hpp:61-63 | the rebuilt unit list, sorted side first, is a permutation of the old one |
| OptMEUnits.ReadSortBounds | protocol/optme/utils.hpp:47-64 | after the read-side sort, max_seq is at least 1 and every read unit's transaction holds a sequence in [1, max_seq] |
| OptMEUnits.ReadUnits.Sort | protocol/optme/utils.hpp:47-64 | the units become the sorted units then the unsorted ones, in order; max_seq is 1 when nothing was sorted and the largest sorted sequence otherwise; exactly the unsorted units' transactions take max_seq |
| OptMEUnits.LargestSeq | protocol/optme/utils.hpp:54-56 | the sequence found is one of the sorted units' and no unit's is larger |
| OptMEUnits.FirstUpdaterSpec | protocol/optme/utils.hpp:81-91 | the first live co-located sorted unit takes read max_seq+1 and every later one is aborted; at most one co-located unit stays live; only sorted transactions are aborted; the flag ends set iff it was set or such a unit existed |
| OptMEUnits.AbortStaleSpec | protocol/optme/utils.hpp:93-98 | sequences do not change; every sorted unit left live holds at least the read max_seq; only sorted transactions below it are aborted |
| OptMEUnits.NextFree | protocol/optme/utils.hpp:107-109 | the result is the first number from n on that is not in the used set |
| OptMEUnits.AssignFreshSpec | protocol/optme/utils.hpp:105-114 | no abort flag changes and only unsorted transactions are re-sequenced; with distinct transactions each gets an unused sequence from read max_seq+1 on, strictly increasing along the list, and max_seq is the last one |
| OptMEUnits.WriteSortSequences | protocol/optme/utils.hpp:76-118 | after the write-side sort, unsorted units hold distinct sequences above the read max_seq, none equal to a sorted unit's, and every live sorted unit holds at least the read max_seq |
| OptMEUnits.WriteUnits.Sort | protocol/optme/utils.hpp:76-118 | the units are reordered sorted side first, and the transactions, the updater flag and max_seq become what the four passes (first updater, stale abort, used sequences, fresh sequences) compute |
| OptMEUnits.FirstUpdaterPicks | protocol/optme/utils.hpp:81-91 | with no updater chosen yet, the first live co-located sorted unit becomes the updater with sequence max_seq+1 and the flag is set; the aborted set grows by exactly the transactions of the later co-located units, and the updater stays live unless one of those is its own |
| OptMEUnits.FirstUpdaterChosen | protocol/optme/utils.hpp:81-91 | once an updater has been chosen, the loop aborts exactly the transactions of the co-located units and changes no sequence |
| OptMEUnits.FirstUpdaterNone | protocol/optme/utils.hpp:81-91 | with no live co-located unit the loop changes nothing |
| OptMEUnits.FirstUpdaterPass | protocol/optme/utils.hpp:81-91 | the first loop's effect on the transactions and the flag is `FirstUpdater` |
| OptMEUnits.AbortStalePass | protocol/optme/utils.hpp:93-98 | the second loop's effect is `AbortStale` |
| OptMEUnits.CollectSeqs | protocol/optme/utils.hpp:100-103 | the set collected holds the sequence of every sorted unit |
| OptMEUnits.SkipUsed | protocol/optme/utils.hpp:107-109 | the inner loop stops at the first unused sequence from its start |
| OptMEUnits.AssignFreshPass | protocol/optme/utils.hpp:105-112 | the last loop's effect and final `write_seq` are `AssignFresh` |
| OptMEUnits.ConvertToUnits | protocol/optme/utils.hpp:309-323 | one unit per key, each at its own address and belonging to tx, co-located exactly when the key is in the read set (never for read units) |
| OptMEUnits.SetWrDependencies | protocol/optme/utils.hpp:337-347 | each read unit gains one dependency per write unit at another address, and each write unit one per read unit at another address; nothing else changes |
| OptMEUnits.PairWithWrite | protocol/optme/utils.hpp:338-345 | one write unit's pass: every read unit at another address gains one and the write unit gains their number |
| OptMEUnits.DependencyTotalsAgree | protocol/optme/utils.hpp:337-347 | both sides gain the same total number of dependencies (one per pair on different addresses) |
| OptMEUnits.RankBeforeStrictTotal | protocol/optme/utils.hpp:374-382 | the address comparator (larger in-degree, then smaller out-degree, then smaller address) is a strict total order on distinct addresses |
| OptMEUnits.SortAddressesSpec | protocol/optme/utils.hpp:374-382 | sorting keeps every address (a permutation) and leaves none ranked before an earlier one |
| OptMEUnits.AddressRank | protocol/optme/utils.hpp:369-389 | the names, in the order of some ranked permutation of the addresses |
| OptMEUnits.RankedIsStrict | protocol/optme/utils.hpp:374-382 | with distinct names, the ranked list is strictly increasing under the comparator |
| OptMEUnits.RemoveFirstAt | protocol/optme/utils.hpp:437-440 | `find` then `erase` takes out exactly the first occurrence and keeps a list without one |
| OptMEUnits.EraseAbortedLeavesLive | protocol/optme/utils.hpp:423-443 | erasing the collected aborted transactions one by one leaves exactly the live ones, in order |
| OptMEUnits.CollectAborted | protocol/optme/utils.hpp:428-434 | the transactions collected are the aborted ones of the list, in order |
| OptMEUnits.EraseFirst | protocol/optme/utils.hpp:437-440 | the list loses the first occurrence of the transaction, if any |
| OptMEUnits.EraseAll | protocol/optme/utils.hpp:436-441 | the second loop erases the collected transactions in turn |
| OptMEUnits.ConflictGraph.CheckUpdaterAlreadyExist | protocol/optme/utils.hpp:325-335 | true iff some co-located write unit sits at a known address whose first updater is taken |
| OptMEUnits.ConflictGraph.ExtractAbortList | protocol/optme/utils.hpp:423-443 | the aborted transactions are appended to aborted_txs in list order, tx_list keeps exactly the live ones in order, and the returned list is empty |
| OptME.ReserveGet | protocol/optme/OptME.cpp:403-415 | the read aborts iff a write block other than tx's is recorded, and then the entry is unchanged; otherwise the read block becomes the larger of the old one and tx's; the write side never changes |
| OptME.ReservePut | protocol/optme/OptME.cpp:420-437 | a free entry takes tx's block with one pending write, the holding block counts one more, a later block raises `next`, an earlier block changes nothing; the read block never changes |
| OptME.FinalizePut | protocol/optme/OptME.cpp:279-297 | the holding block's count drops by one; at zero the following block takes over with `next`'s count, or the key is released; other blocks leave the entry alone |
| OptME.ReservePutThenFinalize | protocol/optme/OptME.cpp:420-437 | a write reserved on a free or same-block entry and then finalized leaves the entry as it was |
| OptME.OwnWriteDoesNotBlockRead | protocol/optme/OptME.cpp:407 | once tx holds a key's write, reads of its own block on that key are never aborted |
| OptME.Table.ReserveGetKey | protocol/optme/OptME.cpp:403-415 | the key's entry becomes `ReserveGet` of the old one, and tx is aborted exactly when it says so |
| OptME.Table.ReservePutKey | protocol/optme/OptME.cpp:420-437 | the key's entry becomes `ReservePut` of the old one; no flag changes |
| OptME.Table.Finalize | protocol/optme/OptME.cpp:275-299 | tx is committed, every key it wrote gets `FinalizePut`, and every other key is unchanged |
| OptME.EpochOf | protocol/optme/OptME.cpp:221-224 | the chosen epoch is the first whose key set the tx's read keys and write keys both fail to contain; one past the end when there is none |
| OptME.Resize | protocol/optme/OptME.cpp:227-228 | `resize` keeps the common prefix and pads with empty values |
| OptME.Place | protocol/optme/OptME.cpp:220-236 | one turn appends tx to the chosen epoch's schedule and adds its write keys to that epoch's set, opening one new epoch when it is past the end; every other epoch is unchanged |
| OptME.PlaceAddsOne | protocol/optme/OptME.cpp:231 | one turn schedules exactly the placed transaction |
| OptME.ReorderKeepsLengths | protocol/optme/OptME.cpp:226-229 | the schedules stay exactly as long as epoch_map |
| OptME.ReorderPlacesEachOnce | protocol/optme/OptME.cpp:217-237 | every aborted transaction ends in exactly one schedule, and nothing already scheduled is lost |
| OptME.ReorderOnlyAppends | protocol/optme/OptME.cpp:231 | schedules are only appended to, so each epoch keeps its transactions' input order |
| OptME.InterEpochReordering | protocol/optme/OptME.cpp:217-237 | the loop computes the schedules of `Reorder` over the aborted transactions in order, starting from an empty epoch_map |
| OptME.PlaceAborted | protocol/optme/OptME.cpp:221-235 | one turn of the loop computes `Place` |
| OptME.FindEpoch | protocol/optme/OptME.cpp:221-224 | the inner while loop stops at `EpochOf` |
| AriaER.Reserve | protocol/ariaer/AriaER.cpp:132-136 | the slot ends in tx's batch, held by the smaller of tx and the old holder of the same batch, or by tx when the slot was of another batch or empty |
| AriaER.ReserveGet | protocol/ariaer/AriaER.cpp:129-138 | the read slot follows `Reserve`, and the write slot is untouched |
| AriaER.ReservePut | protocol/ariaer/AriaER.cpp:143-152 | the write slot follows `Reserve`, and the read slot is untouched |
| AriaER.ReservePutAgain | protocol/ariaer/AriaER.cpp:158-168 | as ReservePut, except that a same-batch holder marked in abortList is replaced too |
| AriaER.ValidEntryHasHolder | protocol/ariaer/AriaER.cpp:189-199 | in an entry built by the reserve operations, a matching batch always has a holder, so CompareReservedPut's unchecked dereference is safe |
| AriaER.ReserveKeepsValid | protocol/ariaer/AriaER.cpp:129-168 | every reserve operation keeps "a slot names a batch exactly when it has a holder" |
| AriaER.ReserveGetThenCompare | protocol/ariaer/AriaER.cpp:174-183 | right after its read reservation, tx passes CompareReservedGet iff no smaller id of its batch held the slot |
| AriaER.ReserveAllKeepsMinimum | protocol/ariaer/AriaER.cpp:132-136 | whatever the order of a batch's reservations, the slot ends held by the smallest id among them and any earlier holder of that batch |
| AriaER.OnlySmallestKeepsRead | protocol/ariaer/AriaER.cpp:174-183 | after a fresh batch reserves a key, exactly its smallest-id transaction passes CompareReservedGet |
| AriaER.Table.ReserveGetKey | protocol/ariaer/AriaER.cpp:129-138 | the key's entry becomes `ReserveGet` of the old one |
| AriaER.Table.ReservePutKey | protocol/ariaer/AriaER.cpp:143-152 | the key's entry becomes `ReservePut` of the old one |
| AriaER.Table.ReservePutAgainKey | protocol/ariaer/AriaER.cpp:158-168 | the key's entry becomes `ReservePutAgain` of the old one |
| AriaER.AnyPutLost | protocol/ariaer/AriaER.cpp:392-395 | the loop's flag is set iff some key fails CompareReservedPut |
| AriaER.AnyGetLost | protocol/ariaer/AriaER.cpp:388-391 | the loop's flag is set iff some key fails CompareReservedGet |
| AriaER.Verify | protocol/ariaer/AriaER.cpp:376-404 | conflict iff waw, or raw together with war under reordering, or raw alone without it; raw is a lost write slot on a read key, war a lost read slot on a write key, waw a lost write slot on a write key |
| AriaER.VerifyWrite | protocol/ariaer/AriaER.cpp:408-418 | conflict iff some write key's write slot is lost (waw) |
| AriaER.WaitTargetUnique | protocol/ariaer/AriaER.cpp:480-492 | the wait target is determined by the set of dependencies, whatever order they are scanned in |
| AriaER.LockTable.PrepareLockTable | protocol/ariaer/AriaER.cpp:433-444 | tx is appended to the reader list of each read key and the writer list of each write key; other keys are unchanged |
| AriaER.LockTable.AddReader | protocol/ariaer/AriaER.cpp:434-438 | the first loop appends tx to the reader list of each read key |
| AriaER.LockTable.AddWriter | protocol/ariaer/AriaER.cpp:439-443 | the second loop appends tx to the writer list of each write key |
| AriaER.LockTable.CleanLockTable | protocol/ariaer/AriaER.cpp:502-513 | the writer lists of the write keys and the reader lists of the read keys are emptied; nothing else changes |
| AriaER.LockTable.ClearReaders | protocol/ariaer/AriaER.cpp:508-512 | the reader lists of the given keys are emptied |
| AriaER.ScanBelow | protocol/ariaer/AriaER.cpp:481-485 | scanning one dependency list keeps the largest id below tx's among everything seen |
| AriaER.ScanKey | protocol/ariaer/AriaER.cpp:483-486 | one write key's scan covers its readers and writers, one read key's its writers |
| AriaER.ScanKeys | protocol/ariaer/AriaER.cpp:482-492 | one loop over a group of keys keeps the largest id below tx's among their dependencies |
| AriaER.ChooseWait | protocol/ariaer/AriaER.cpp:479-493 | should_wait is the largest id below tx's among the readers and writers of its write keys and the writers of its read keys, or null when there is none |
| Harmony.HarmonyTx.constructor | protocol/harmony/Harmony.cpp:83-96 | a new transaction has min_out = id+1, max_in = 0 and no conflict, so the abort rule does not hold for it |
| Harmony.HarmonyTx.Verify | protocol/harmony/Harmony.cpp:256-270 | with inter-block execution off the flag is raised iff min_out < id and min_out <= max_in; the flag is never cleared and nothing else changes |
| Harmony.OnSeeingRwDependency | protocol/harmony/Harmony.cpp:125-129 | Tj's min_out becomes min(Ti.id, min_out), which never rises, and Ti's max_in becomes max(Tj.id, max_in), which never falls; nothing else changes |
| Harmony.MinIdOfSpec | protocol/harmony/Harmony.cpp:222-224 | lowering min_out over a list of writers gives the smallest of the old value and their ids |
| Harmony.MaxIdOfSpec | protocol/harmony/Harmony.cpp:242-244 | raising max_in over a list of readers gives the largest of the old value and their ids |
| Harmony.HarmonyTable.ReadKey | protocol/harmony/Harmony.cpp:219-226 | a read sees a dependency on every writer reserved so far and then joins the readers: its min_out drops to the smallest writer id, and each writer's max_in rises to its id; no conflict flag changes |
| Harmony.HarmonyTable.WriteKey | protocol/harmony/Harmony.cpp:240-246 | a write gives every reader reserved so far a dependency on it and then joins the writers: each reader's min_out drops to its id, and its max_in rises to the largest reader id; no conflict flag changes |
| Harmony.DangerousStructureConflicts | protocol/harmony/Harmony.cpp:263 | a transaction that read a key written by an older one, and that a reader at least as old as that writer depends on, meets the abort rule |
| Harmony.NoOlderWriterNoConflict | protocol/harmony/Harmony.cpp:263 | without a dependency toward an older writer, min_out stays above the id and the abort rule cannot hold |
| Harmony.BatchIndex | protocol/harmony/Harmony.cpp:47-48 | the batch is `j % num_threads` for the chunk start j holding the position, so it is a valid thread index |
| Harmony.SplitStep | protocol/harmony/Harmony.cpp:47-55 | appending the next position to its batch extends the split by one position |
| Harmony.PlaceChunk | protocol/harmony/Harmony.cpp:49-54 | the inner loop places the positions of one chunk, those below the block size, in its batch |
| Harmony.SplitBlock | protocol/harmony/Harmony.cpp:40-55 | every position of the block lands in exactly one batch, the one BatchIndex names, and each batch keeps block order; an empty block gives empty batches |
| Harmony.SplitCanLeaveThreadIdle | protocol/harmony/Harmony.cpp:48 | the split as written: with 4 transactions and 2 threads both chunks go to batch 0 and batch 1 stays empty |
| Harmony.BalancedSplitIsBounded | protocol/harmony/Harmony.cpp:40-55 | with chunk i going to thread i, every position goes to an existing thread and each thread gets at most one chunk of tx_per_thread positions |
| Moss.MossTx.constructor | protocol/moss/Moss.cpp:151-161 | a new transaction keeps its id, is not flagged and has empty local read and write sets |
| Moss.GetEntry | protocol/moss/Moss.cpp:211-230 | the read fails exactly when the entry's writer has a smaller id, and then the entry is untouched; otherwise it returns the entry's value and adds the reader |
| Moss.PutEntry | protocol/moss/Moss.cpp:251-266 | the readers are unchanged; afterwards the slot has a writer: the new one on an empty slot, otherwise the smaller of the two ids; the value changes only on a rewrite by the same id |
| Moss.WarCaughtEitherOrder | protocol/moss/Moss.cpp:217-247 | a read and an older write of one key are caught in either order: after the write the read fails, and a read made first is among the write's victims |
| Moss.SmallerWriterWins | protocol/moss/Moss.cpp:254-265 | of two writers to an empty slot the smaller id holds the slot whichever writes first, and the larger one is flagged both ways |
| Moss.MossTable.constructor | protocol/moss/Moss.cpp:211-213 | a new table holds no entries |
| Moss.MossTable.Read | protocol/moss/Moss.cpp:211-230 | the key's entry becomes GetEntry's, the value read is GetEntry's, and the reader is flagged exactly when the read fails |
| Moss.MossTable.Write | protocol/moss/Moss.cpp:236-268 | the key's entry becomes PutEntry's, and of the readers, the writer and the transaction itself exactly PutVictims are newly flagged; no local set changes |
| Moss.FlagNewerReaders | protocol/moss/Moss.cpp:241-249 | each reader is flagged exactly when its id is larger than the writer's, other flags kept |
| Moss.MossTable.ClearGet | protocol/moss/Moss.cpp:273-279 | the transaction leaves the key's readers; nothing else changes |
| Moss.MossTable.ClearPut | protocol/moss/Moss.cpp:284-294 | the key's writer slot is emptied only when the transaction holds it |
| Moss.MossEngine.constructor | protocol/moss/Moss.cpp:137-148 | a new driver has its table and no transaction finalized |
| Moss.MossEngine.ReExecute | protocol/moss/Moss.cpp:126-133 | the flag is cleared and the local read and write sets are emptied |
| Moss.MossEngine.Finalize | protocol/moss/Moss.cpp:137-148 | the transaction leaves the readers of every key it read and the writer slot of every key it wrote and holds; values are kept; the finalized count grows by one |
| Moss.ClearReads | protocol/moss/Moss.cpp:140-142 | after the loop the transaction is no reader of any of the keys, and every other entry is unchanged |
| Moss.ClearWrites | protocol/moss/Moss.cpp:143-145 | after the loop no key of the set has the transaction as writer, and every other entry is unchanged |
| FabricPP.Bump | protocol/fabricPP/FabricPP.cpp:41-56 | m_degree++ raises one vertex's degree by exactly one and leaves every other degree as it was |
| FabricPP.AddDegrees | protocol/fabricPP/FabricPP.cpp:37-57 | adding one new edge to both adjacency maps and to both endpoints' degrees keeps every degree equal to the vertex's in- plus out-edge count |
| FabricPP.FoundReadWrite | protocol/fabricPP/FabricPP.cpp:37-46 | a read-write conflict of the new vertex with an older one adds exactly the edge new -> old, to the out-edges and, reversed, to the in-edges |
| FabricPP.FoundWriteRead | protocol/fabricPP/FabricPP.cpp:48-57 | a write-read conflict adds exactly the edge old -> new, to both maps |
| FabricPP.LinkReadWrite | protocol/fabricPP/FabricPP.cpp:37-46 | the read-write check against one older vertex keeps the graph equal to the conflict edges checked so far, with degrees counting edges |
| FabricPP.LinkWriteRead | protocol/fabricPP/FabricPP.cpp:48-57 | the write-read check against one older vertex does the same for the other direction |
| FabricPP.LinkNew | protocol/fabricPP/FabricPP.cpp:30-60 | after the inner loop the graph over the old vertices and the new one has exactly the conflict edges, mirrored in-edges and counted degrees |
| FabricPP.LinkAll | protocol/fabricPP/FabricPP.cpp:28-61 | the outer loop adds every hyper vertex, and the graph over all of them has exactly the conflict edges whatever the order |
| FabricPP.CountPositive | protocol/fabricPP/FabricPP.cpp:86-98 | a vertex has a positive cycle count exactly when it lies in some cycle, which is when it enters the queue |
| FabricPP.WithoutSpec | protocol/fabricPP/FabricPP.cpp:122-137 | removing the cycles through v keeps exactly the cycles without v, and when v lies in one the list gets shorter |
| FabricPP.FirstExists | protocol/fabricPP/FabricPP.cpp:114-117 | a non-empty queue has a head: a vertex with the most cycles and, among those, the smallest id |
| FabricPP.FirstHitsMostCycles | protocol/fabricPP/FabricPP.cpp:114-117 | with the counts in step with the remaining cycles, the head of the queue lies in at least as many of them as any other vertex, and in strictly more than any vertex with a smaller id: it is the pick |
| FabricPP.HeadExists | protocol/fabricPP/FabricPP.cpp:114-117 | while some cycle has a vertex, a pick (most cycles, then smallest id) exists |
| FabricPP.HeadOf | protocol/fabricPP/FabricPP.cpp:114-117 | the chosen vertex is the pick of the remaining cycles |
| FabricPP.First | protocol/fabricPP/FabricPP.cpp:117 | pq.begin() returns the head of the queue |
| FabricPP.CountCycles | protocol/fabricPP/FabricPP.cpp:87-98 | after counting one component's cycles each vertex's cycle number grew by the number of those cycles containing it, and the vertices collected for the queue are exactly those of the cycles |
| FabricPP.Uncount | protocol/fabricPP/FabricPP.cpp:125-133 | every vertex of a deleted cycle leaves the queue; one with more than one cycle has its count lowered by one and comes back; vertices outside the cycle are untouched |
| FabricPP.DropCycle | protocol/fabricPP/FabricPP.cpp:122-137 | deleting one cycle through v keeps every count equal to the number of remaining cycles through the vertex and the queue equal to their vertices |
| FabricPP.EraseCyclesWith | protocol/fabricPP/FabricPP.cpp:122-137 | the remove_if keeps exactly the cycles without v, in order, and the counts and the queue stay in step with them |
| FabricPP.RollBackFirst | protocol/fabricPP/FabricPP.cpp:115-140 | one round rolls back exactly the head of the queue, which is the pick of the remaining cycles, leaves exactly the cycles without it, keeps counts and queue in step with them, and every cycle no longer listed holds a rolled-back vertex |
| FabricPP.RollBackKeepsPending | protocol/fabricPP/FabricPP.cpp:120-137 | rolling back a vertex of a remaining cycle and deleting the cycles through it keeps: listed cycles unbroken, the others broken, rolled-back vertices inside cycles |
| FabricPP.BreakCycles | protocol/fabricPP/FabricPP.cpp:115-140 | step 3 rolls back exactly the vertices of the iterated pick-and-delete (Broken); so every cycle holds a rolled-back vertex, only vertices of cycles are rolled back, and nothing is rolled back exactly when there was no cycle |
| FabricPP.CollectCycles | protocol/fabricPP/FabricPP.cpp:75-102 | step 2 records the cycles of every component in component order, each vertex's cycle number is the number of recorded cycles through it, and the queue holds exactly their vertices |
| FabricPP.NoEmptyCycle | protocol/fabricPP/FabricPP.cpp:83-101 | when the enumeration returns no empty cycle, neither does the recorded list |
| FabricPP.ComponentsWithin | protocol/fabricPP/FabricPP.cpp:168-172 | the components kept by the size filter lie within the graph's vertices |
| FabricPP.Engine.constructor | protocol/fabricPP/FabricPP.cpp:6-24 | a new instance has handed out no id and holds an empty graph, no cycles and no rollback |
| FabricPP.Engine.Execute | protocol/fabricPP/FabricPP.cpp:6-24 | the transaction takes the next id, which is fresh, and is recorded with its read and write sets; the graph, cycles and rollback set are untouched |
| FabricPP.Engine.BuildGraph | protocol/fabricPP/FabricPP.cpp:26-62 | the graph ends up over the old vertices plus every hyper vertex, with exactly the conflict edges, mirrored in-edges and degrees that count edges |
| FabricPP.Engine.Tarjan | protocol/fabricPP/FabricPP.cpp:144-175 | the components partition the vertices, the result keeps exactly those with more than one vertex, in order, and reports whether there is one |
| FabricPP.Engine.Rollback | protocol/fabricPP/FabricPP.cpp:64-142 | with no non-trivial component nothing changes; otherwise the rolled-back vertices are exactly those of the iterated pick-and-delete over all enumerated cycles, every such cycle holds one, the rollback set grows by them, and no cycle remains |
| Scc.UnionMembership | protocol/loom/MinWRollback.cpp:1208-1216 | a vertex lies in the union of the components exactly when it lies in one of them |
| Scc.NontrivialSpec | protocol/loom/MinWRollback.cpp:1177-1182 | the kept components are exactly the popped ones with more than one vertex |
| Scc.NontrivialSnoc | protocol/loom/MinWRollback.cpp:1177-1182 | pushing a component adds it to the kept list exactly when it has more than one vertex |
| Scc.PushMarks | protocol/loom/MinWRollback.cpp:1191-1192 | pushing an unvisited vertex and marking it keeps the stack repeat-free and marked exactly |
| Scc.PopMarks | protocol/loom/MinWRollback.cpp:1211-1213 | popping the top and unmarking it keeps the stack marked exactly |
| Scc.PushCovered | protocol/loom/MinWRollback.cpp:1190-1192 | a newly visited vertex is covered by the stack |
| Scc.PopCovered | protocol/loom/MinWRollback.cpp:1208-1216 | moving the top of the stack into a new component keeps every visited vertex on the stack or in exactly one component |
| Scc.PushNumbered | protocol/loom/MinWRollback.cpp:1190-1192 | the pushed vertex's index and lowlink, ++index, keep the stack in index order with lowlinks no higher than indices |
| Scc.LowerNumbered | protocol/loom/MinWRollback.cpp:1201-1203 | lowering a lowlink by min with a value no smaller than the bottom's index keeps the numbering |
| Scc.Shrinks | protocol/loom/MinWRollback.cpp:1190-1200 | visiting a vertex leaves fewer unvisited ones, so the recursion ends |
| Scc.PopKeepsState | protocol/loom/MinWRollback.cpp:1207-1217 | popping down to the root into a new component keeps the search invariant |
| Scc.Tarjan.constructor | protocol/loom/MinWRollback.cpp:1164-1169 | a new search has index 0, an empty stack, no indices and no components |
| Scc.Tarjan.Visit | protocol/loom/MinWRollback.cpp:1190-1192 | the vertex gets the next index as index and lowlink and is pushed; the components are unchanged |
| Scc.Tarjan.PopComponent | protocol/loom/MinWRollback.cpp:1208-1216 | the stack is cut back to below the root and the popped vertices become one new component |
| Scc.Tarjan.StrongConnect | protocol/loom/MinWRollback.cpp:1187-1218 | the vertex is visited, earlier vertices keep their index and lowlink, the stack below the call is untouched, and a call on an empty stack leaves it empty |
| Scc.Tarjan.Finish | protocol/loom/MinWRollback.cpp:1207-1217 | numbering is unchanged; the stack is either untouched or cut to below the vertex, and the bottom of the stack is always cut |
| Scc.Tarjan.ScanSuccessors | protocol/loom/MinWRollback.cpp:1194-1205 | after the loop the vertex keeps its index, earlier vertices keep their numbers, and the stack below it is untouched |
| Scc.Tarjan.Successor | protocol/loom/MinWRollback.cpp:1195-1204 | one successor: recursion or a lowlink update keeps the vertex's index and the numbers of earlier vertices |
| Scc.PopTo | protocol/loom/MinWRollback.cpp:1210-1215 | the do-while pops exactly the vertices from the root up, returns them as a set, and unmarks them |
| Scc.KeepNontrivial | protocol/loom/MinWRollback.cpp:1177-1182 | the copied list is the components with more than one vertex, in order |
| Scc.RecognizeScc | protocol/loom/MinWRollback.cpp:1163-1185 | the popped components partition the given vertices, the result keeps those with more than one vertex, and the answer is true exactly when there is one |
| MinWIndex.AddOne | protocol/loom/MinWRollback.cpp:60-61 | one more reader gains the key's writers and loses itself; the other entries are untouched |
| MinWIndex.AddReaders | protocol/loom/MinWRollback.cpp:59-62 | after the readers loop each reader of the key depends on all its writers but not on itself, and no other entry changed |
| MinWIndex.KeyFacts | protocol/loom/MinWRollback.cpp:52-63 | indexing one more key touches exactly its readers when it has writers, and links each of them to its writers |
| MinWIndex.IndexKey | protocol/loom/MinWRollback.cpp:52-63 | indexing one more key, skipped when it has no writers, extends what has been indexed by that key |
| MinWIndex.OnWarm2RWIndex | protocol/loom/MinWRollback.cpp:50-64 | every reader of a key with writers comes to depend on those writers and never on itself; keys without writers add nothing; other entries are kept |
| MinWIndex.RWIndexFacts | protocol/loom/MinWRollback.cpp:50-64 | from an empty index no sub-transaction depends on itself, a reader has an entry exactly when it reads a written key, and r depends on w exactly when w != r and r reads a key w writes |
| MinWIndex.FindFrom | protocol/loom/MinWRollback.cpp:748 | std::string::find gives the first position at or after the start where the needle occurs, or npos when there is none |
| MinWIndex.AncesterIsPrefix | protocol/loom/MinWRollback.cpp:746-749 | v1 is an ancestor of v2 exactly when v1's id is a prefix of v2's |
| MinWIndex.CombineInjective | protocol/loom/MinWRollback.cpp:798-800 | a * 1000001 + b fits a long long for int operands, and with b in [0, 1000001) the key gives both ids back, so distinct pairs get distinct keys |
| MinWIndex.CombineNeedsBound | protocol/loom/MinWRollback.cpp:798-800 | without that bound keys collide: (1, 1000001) and (2, 0) share one |
| MinWIndex.LeastExists | protocol/loom/MinWRollback.cpp:2836-2842 | a non-empty set ordered by id has a first element |
| MinWIndex.Least | protocol/loom/MinWRollback.cpp:2836-2842 | rbSet.begin() is the element with the least id |
| MinWIndex.ElementsAppend | protocol/loom/MinWRollback.cpp:2838-2843 | the elements of a concatenation are those of both parts |
| MinWIndex.AppendAll | protocol/loom/MinWRollback.cpp:2838-2843 | std::copy of a set onto the list keeps the old list as prefix and appends each element of the set exactly once |
| MinWIndex.EntryStep | protocol/loom/MinWRollback.cpp:2837-2839 | appending what one element gives extends the entry's copy by that element |
| MinWIndex.EntryVictims | protocol/loom/MinWRollback.cpp:2836-2843 | everything taken for the elements after the first is exactly the entry's victims |
| MinWIndex.AppendEntry | protocol/loom/MinWRollback.cpp:2834-2844 | for one rollback-index entry the list keeps its prefix and gains exactly the entry's victims: every element after the first, or for a "Cdelivery-" key their cascades |
| MinWIndex.FastRollback | protocol/loom/MinWRollback.cpp:2828-2858 | over all keys the list keeps its prefix and gains exactly the victims of every entry |
| MinWGraph.AddOut | protocol/loom/MinWRollback.cpp:690-695 | the reader's hyper-vertex gains the out-edge, its rollback set towards the writer gains the cascade and its weight the cost; nothing else of it changes |
| MinWGraph.AddIn | protocol/loom/MinWRollback.cpp:698-703 | the writer's hyper-vertex gains the in-edge, its in-rollback set the cascade and its in-cost the cost; nothing else of it changes |
| MinWGraph.LinkNoEdgeSpec | protocol/loom/MinWRollback.cpp:674-704 | onRWCNoEdge links writer and reader both ways, raises the weight towards the writer and the writer's in-cost by exactly the reader's cost, and keeps the edge sets closed and mirrored |
| MinWGraph.WithMin | protocol/loom/MinWRollback.cpp:770-784 | setting the minimum of one type gives it the new value and keeps the edges |
| MinWGraph.UnfileFacts | protocol/loom/MinWRollback.cpp:761-763 | after the erase the hyper-vertex is in no bucket and every other one is where it was |
| MinWGraph.RefileFiled | protocol/loom/MinWRollback.cpp:761-784 | moving the hyper-vertex to the bucket of its new pair of minima keeps every bucket exact: it files exactly the hyper-vertices with both minima set, under their combined key |
| MinWGraph.LoweredFacts | protocol/loom/MinWRollback.cpp:752-795 | a spread keeps the edges, never raises a minimum, leaves alone a hyper-vertex already at or below the value, and keeps the graph closed |
| MinWGraph.LoweredOther | protocol/loom/MinWRollback.cpp:765-794 | a spread of one type leaves the other type's minima as they were |
| MinWGraph.SpreadStart | protocol/loom/MinWRollback.cpp:770-784 | lowering the hyper-vertex leaves out of step only the edges out of it and out of the pending ones |
| MinWGraph.SpreadFinish | protocol/loom/MinWRollback.cpp:772-792 | once all of its neighbours are at most its minimum a hyper-vertex need not stay pending |
| MinWGraph.AboveShrinks | protocol/loom/MinWRollback.cpp:774-788 | each recursive call leaves fewer minima above the value, so the recursion ends |
| MinWGraph.MoveBucket | protocol/loom/MinWRollback.cpp:761-783 | the bucket move: out of the bucket of the old pair when both minima were set, into that of the new pair when the other minimum is set |
| MinWGraph.RecursiveUpdate | protocol/loom/MinWRollback.cpp:752-795 | the hyper-vertex's minimum becomes the value, only minima above it are lowered to it, and only the hyper-vertex and those a spread from it can visit (reached along edges of the spread direction) change; the buckets stay exact; and afterwards no neighbour in the spread direction has a larger minimum than a hyper-vertex |
| MinWGraph.ReachTrans | protocol/loom/MinWRollback.cpp:772-792 | reaching composes: a walk from a to b and one from b to c make one from a to c |
| MinWGraph.ReachBound | protocol/loom/MinWRollback.cpp:772-792 | with every spread edge in step, a minimum is at most that of any hyper-vertex it is reached from |
| MinWGraph.ConfinedStep | protocol/loom/MinWRollback.cpp:772-792 | what the recursive call on a neighbour changes, the spread from the hyper-vertex itself may change |
| MinWGraph.UpdateNeighbour | protocol/loom/MinWRollback.cpp:772-792 | one pass of the loop keeps the state a lowering of the start, the buckets exact, and the visited neighbours at most the value |
| MinWGraph.SameMinsKeep | protocol/loom/MinWRollback.cpp:752-795 | what depends only on edges and one kind of minimum carries over between states that agree on those |
| MinWGraph.OutEdgeStep | protocol/loom/MinWRollback.cpp:716-721 | the reader gaining the out-edge leaves out of step only that edge |
| MinWGraph.OutUpdateStep | protocol/loom/MinWRollback.cpp:721-724 | after the out-minimum update every out-minimum is at most the ids of its out-neighbours, and the reader's is at most the writer's |
| MinWGraph.InEdgeStep | protocol/loom/MinWRollback.cpp:731 | the writer gaining the in-edge keeps the out-minima in step and leaves out of step only that edge's in-bound |
| MinWGraph.InUpdateStep | protocol/loom/MinWRollback.cpp:736-739 | after the in-minimum update every in-minimum is at most the ids of its in-neighbours |
| MinWGraph.LowerTo | protocol/loom/MinWRollback.cpp:721-739 | the guarded call spreads the value only when it is below the current minimum; only the hyper-vertex and what it reaches change; with every other edge in step, each minimum afterwards is exactly the smaller of its old value and the value when the hyper-vertex reaches it, and its old value otherwise |
| MinWGraph.LoweredExact | protocol/loom/MinWRollback.cpp:752-795 | a lowering confined to what the spread visits, with every edge in step and the start at most the value, takes exactly the hyper-vertices reached down to the value |
| MinWGraph.ChargeKeeps | protocol/loom/MinWRollback.cpp:726-742 | the rollback-set and cost updates leave the soundness of the minima as it was |
| MinWGraph.EdgeFacts | protocol/loom/MinWRollback.cpp:716-731 | an edge between hyper-vertices of a closed graph keeps it closed and touches no bucket |
| MinWGraph.OutSideSound | protocol/loom/MinWRollback.cpp:716-727 | after the reader's half the minima are sound but for the new edge's in-bound, which the writer's in-minimum update restores |
| MinWGraph.InSideSound | protocol/loom/MinWRollback.cpp:731-742 | after the writer's half the minima are sound again |
| MinWGraph.OutSideUnminned | protocol/loom/MinWRollback.cpp:716-727 | the reader's half changes what onRWCNoEdge changes and, beyond that, only minima |
| MinWGraph.InSideUnminned | protocol/loom/MinWRollback.cpp:731-742 | the writer's half changes what onRWCNoEdge changes and, beyond that, only minima |
| MinWGraph.LinkOutSide | protocol/loom/MinWRollback.cpp:716-727 | the reader's half keeps the graph closed, the in-minima, and the buckets exact, equals onRWCNoEdge's reader side up to minima, and changes an out-minimum only for the reader's hyper-vertex and those it reaches, to the smaller of the writer's out-minimum and the writer's id |
| MinWGraph.LinkInSide | protocol/loom/MinWRollback.cpp:731-742 | the writer's half keeps the graph closed, the out-minima, and the buckets exact, equals onRWCNoEdge's writer side up to minima, makes the minima sound again, and changes an in-minimum only for the writer's hyper-vertex and those it reaches, to the smaller of the reader's in-minimum and the reader's id |
| MinWGraph.OnRWNoEdge | protocol/loom/MinWRollback.cpp:706-743 | onRWNoEdge does onRWCNoEdge's bookkeeping up to minima, keeps the graph closed and the buckets exact, keeps the minima sound (the out-minimum bounds every id reachable forward and the in-minimum every id reachable backward) and keeps them exact: each set minimum is still the id of a hyper-vertex it is reached from |
| MinWGraph.OutSideMins | protocol/loom/MinWRollback.cpp:716-727 | the reader's half leaves the in-minima alone and lowers only the out-minima of the reader's hyper-vertex and what it reaches, to the new value |
| MinWGraph.InSideMins | protocol/loom/MinWRollback.cpp:731-742 | the writer's half leaves the out-minima alone and lowers only the in-minima of the writer's hyper-vertex and what it reaches, to the new value |
| MinWGraph.LinkGrows | protocol/loom/MinWRollback.cpp:706-743 | both halves only add edges, and in the end the new edge is there both ways |
| MinWGraph.LinkUnminned | protocol/loom/MinWRollback.cpp:706-743 | the two halves together change what onRWCNoEdge changes, and beyond that only minima |
| MinWGraph.SoundIsLower | protocol/loom/MinWRollback.cpp:706-795 | with mirrored edges, a sound minimum is at most the id of any hyper-vertex it is reached from |
| MinWGraph.ExactIsLeast | protocol/loom/MinWRollback.cpp:706-795 | exact minima are the least ids reached: every id a hyper-vertex is reached from bounds its minimum, and a set minimum is one of them |
| MinWGraph.AttainedKeep | protocol/loom/MinWRollback.cpp:706-743 | more edges and unchanged minima keep every set minimum attained |
| MinWGraph.AttainedAfter | protocol/loom/MinWRollback.cpp:716-742 | a spread through the new edge keeps the minima attained: the minima it lowers become the source's id or the source's minimum, both reached through that edge |
| MinWGraph.LinkExact | protocol/loom/MinWRollback.cpp:706-743 | onRWNoEdge keeps every set out- and in-minimum attained |
| MinWScc.SinkCovered | protocol/loom/MinWRollback.cpp:1261-1265 | numbering a vertex without out-edges makes it a component of its own, and every visited vertex stays on S or in exactly one component |
| MinWScc.EnterCovered | protocol/loom/MinWRollback.cpp:1267-1269 | a vertex with out-edges goes on S, which keeps it covered |
| MinWScc.FinishStacks | protocol/loom/MinWRollback.cpp:1287-1293 | popping S down to the root together with B's top keeps both stacks in index order, with B empty exactly when S is |
| MinWScc.NumberInv | protocol/loom/MinWRollback.cpp:1261-1265 | numbering a sink keeps the search invariant, adding the unrecorded component {v} |
| MinWScc.EnterInv | protocol/loom/MinWRollback.cpp:1261-1269 | numbering v and pushing it on S and B keeps the search invariant |
| MinWScc.CollapseInv | protocol/loom/MinWRollback.cpp:1277-1279 | popping a root of B that is not its bottom keeps the search invariant |
| MinWScc.FinishInv | protocol/loom/MinWRollback.cpp:1284-1298 | popping S down to the root closes a component, recorded exactly when it has more than one vertex, and keeps the search invariant |
| MinWScc.GabowSearch.constructor | protocol/loom/MinWRollback.cpp:86-89 | a new search has index 0, empty stacks, no indices and no recorded components; its universe is the start set and every edge target |
| MinWScc.GabowSearch.Number | protocol/loom/MinWRollback.cpp:1261-1265 | the vertex gets the next index; the stacks and the recorded components are unchanged, and {v} is a component |
| MinWScc.GabowSearch.Enter | protocol/loom/MinWRollback.cpp:1261-1269 | the vertex gets the next index and is pushed on S and B and marked |
| MinWScc.GabowSearch.Collapse | protocol/loom/MinWRollback.cpp:1277-1279 | B is popped to a non-empty prefix; nothing else changes |
| MinWScc.GabowSearch.Gabow | protocol/loom/MinWRollback.cpp:1258-1299 | the vertex is numbered, earlier vertices keep their index, S keeps what it held, B shrinks to a prefix, and a call on an empty S leaves it empty |
| MinWScc.GabowSearch.Explore | protocol/loom/MinWRollback.cpp:1271-1298 | after the successor loop and the root check, S keeps what lay below v, B is within what lay below v, and the bottom root empties S |
| MinWScc.GabowSearch.ScanSuccessors | protocol/loom/MinWRollback.cpp:1271-1281 | the loop keeps every index, S keeps what it held, and B only shrinks |
| MinWScc.GabowSearch.Successor | protocol/loom/MinWRollback.cpp:1272-1280 | one successor: recursion or a collapse keeps indices, S's prefix and B's prefix |
| MinWScc.GabowSearch.Finish | protocol/loom/MinWRollback.cpp:1284-1298 | numbering is unchanged; S is either untouched or cut to below v; B drops to below v; the bottom root empties S |
| MinWScc.OnWarm2Scc | protocol/loom/MinWRollback.cpp:67-96 | every hyper-vertex, and whatever it reaches, lands in exactly one component; the recorded ones are exactly those with more than one vertex |
| MinWGreedy.WeightSumRemove | protocol/loom/MinWRollback.cpp:1382 | the sum of out-weights over a set does not depend on the order it is taken in |
| MinWGreedy.HitsAdd | protocol/loom/MinWRollback.cpp:1378-1381 | one more out-edge adds one to the count of each rollback vertex it carries |
| MinWGreedy.Bump | protocol/loom/MinWRollback.cpp:1378-1381 | each rollback vertex of the set gains one in the tally, a missing one starting from 0; others are unchanged |
| MinWGreedy.TallyStep | protocol/loom/MinWRollback.cpp:1375-1383 | tallying one more out-edge into the component extends the tally by that edge |
| MinWGreedy.TallyOut | protocol/loom/MinWRollback.cpp:1373-1384 | after the loop the out-cost gained the weights of exactly the out-edges into the component, and the tally counts each rollback vertex once per such edge |
| MinWGreedy.WeighOne | protocol/loom/MinWRollback.cpp:1371-1408 | one hyper-vertex is tallied, and its cost is the cheaper side, the in-side only when strictly cheaper, with the type naming that side |
| MinWGreedy.WeighedUnique | protocol/loom/MinWRollback.cpp:1371-1408 | weighing is a function of the record and the component: two priced weighings of one record are equal |
| MinWGreedy.CalculateWeights | protocol/loom/MinWRollback.cpp:1369-1410 | every hyper-vertex of the component is weighed and priced and joins pq; nothing outside the component changes |
| MinWGreedy.LessIn | protocol/loom/MinWRollback.cpp:2179-2184 | the in-cost losing a non-negative weight keeps the hyper-vertex priced, switching to the in-side when that became strictly cheaper |
| MinWGreedy.LessOut | protocol/loom/MinWRollback.cpp:2219-2224 | likewise for the out-cost |
| MinWGreedy.EraseAll | protocol/loom/MinWRollback.cpp:2197-2249 | the erase loop removes exactly the rollback set |
| MinWGreedy.EraseKeys | protocol/loom/MinWRollback.cpp:2247-2249 | the erase loop removes exactly those keys from the tally |
| MinWGreedy.Uncount | protocol/loom/MinWRollback.cpp:2238-2245 | for each rollback vertex a count of one is erased and any other count goes down by one; other counts are unchanged |
| MinWGreedy.Drop | protocol/loom/MinWRollback.cpp:2187-2258 | the leaver leaves the component and pq onto the end of the queue order (in-side ran out) or the stack order (out-side ran out) with its record unchanged, and the new state is the recursive update around it as DropSpec defines it from the records; every leaver joins its order for its reason; the rest stays priced |
| MinWGreedy.OutRecord | protocol/loom/MinWRollback.cpp:2179-2203 | the out-loop body gives exactly AfterOut's record and OutLeaves' verdict, changes no edge, and a leaver has its in-side run out |
| MinWGreedy.InRecord | protocol/loom/MinWRollback.cpp:2219-2252 | the in-loop body gives exactly AfterIn's record and InLeaves' verdict, changes no edge, and a leaver has its out-side run out |
| MinWGreedy.ForgetTally | protocol/loom/MinWRollback.cpp:2236-2250 | the tally loses one count per rollback vertex when the leaver went on its out-side, whole entries otherwise, as ForgetOut defines |
| MinWGreedy.VisitOut | protocol/loom/MinWRollback.cpp:2175-2213 | an out-neighbour still in the component gets exactly the record AfterOut gives (in-cost less the edge's weight, repriced to the in-side when strictly cheaper, the leaver's rollback set forgotten when the leaver went on its in-side); it leaves onto the end of the queue order exactly when OutLeaves holds, and otherwise nothing else changes |
| MinWGreedy.VisitIn | protocol/loom/MinWRollback.cpp:2218-2260 | an in-neighbour still in the component gets exactly the record AfterIn gives (out-cost less its weight towards the leaver, repriced to the out-side when strictly cheaper, the tally reduced by one count or by whole entries as the leaver's side says); it leaves onto the end of the stack order exactly when InLeaves holds, and otherwise nothing else changes |
| MinWGreedy.UpdateScc | protocol/loom/MinWRollback.cpp:2170-2262 | the new state is exactly UpdateSpec: the out-neighbours still in the component visited, then the in-neighbours, each by its record update and recursive leave; hyper-vertices leave only onto the two orders, each exactly once and for its reason; the result is untouched; the remaining ones stay priced |
| MinWGreedy.OutNeighbours | protocol/loom/MinWRollback.cpp:2173-2214 | the out-loop's state is exactly OutLoop's, each out-neighbour still in the component visited in turn |
| MinWGreedy.InNeighbours | protocol/loom/MinWRollback.cpp:2216-2261 | the in-loop's state is exactly InLoop's, each in-neighbour still in the component visited in turn |
| MinWGreedy.JoinedLeft | protocol/loom/MinWRollback.cpp:2187-2258 | a hyper-vertex that joined one of the orders came from the component and is no longer in it |
| MinWGreedy.JoinedTrans | protocol/loom/MinWRollback.cpp:1683-1719 | the reasons for joining an order compose over successive rounds: a leaver's record never changes once it has left |
| MinWGreedy.FirstExists | protocol/loom/MinWRollback.cpp:1684 | a non-empty pq has a first element under cmp |
| MinWGreedy.FirstUnique | protocol/loom/MinWRollback.cpp:1684 | ids are distinct, so pq has only one first element under cmp |
| MinWGreedy.TakeFirst | protocol/loom/MinWRollback.cpp:1684-1704 | the first hyper-vertex is rolled back: on its out-side its tally's keys join the result and it goes onto the stack order; on its in-side its in-rollback set joins and it goes onto the queue order; it leaves the component and pq |
| MinWGreedy.Pick | protocol/loom/MinWRollback.cpp:1684-1712 | one round is exactly Round: the first of pq under cmp is taken, leaves the component with its record unchanged, the result gains exactly what it rolls back (its tally's keys on its out-side, its in-rollback set on its in-side), and the component is updated around it while more than one hyper-vertex is left |
| MinWGreedy.GreedySelect | protocol/loom/MinWRollback.cpp:1683-1719 | the final state and the picks are exactly Greedy's, the rounds repeated while more than one hyper-vertex is left; every leaver goes exactly once onto one of the orders, at most one is left, and the result gains exactly what the picks roll back |
| MinWGreedy.GainedSpec | protocol/loom/MinWRollback.cpp:1686-1697 | a sub-transaction is gained exactly when one of the picks rolls it back |
| MinWGreedy.GainedCons | protocol/loom/MinWRollback.cpp:1686-1717 | one more pick in front adds exactly what it rolls back |
| MinWGreedy.Remaining | protocol/loom/MinWRollback.cpp:1099-1102 | what is left in pq, listed, holds exactly its members |
| MinWGreedy.Reversed | protocol/loom/MinWRollback.cpp:1105-1108 | the pops of a stack are its elements, top first |
| MinWGreedy.ReversedSame | protocol/loom/MinWRollback.cpp:1105-1108 | popping the stack gives the same elements, in reverse order |
| MinWGreedy.PopAll | protocol/loom/MinWRollback.cpp:1105-1108 | the serial order is the queue order followed by the stack order popped |
| MinWGreedy.SerialComplete | protocol/loom/MinWRollback.cpp:1099-1111 | the serial order holds every hyper-vertex of the component exactly once |
| MinWGreedy.SelectOrder | protocol/loom/MinWRollback.cpp:1097-1111 | the final state and picks are Greedy's from the weighed component; the serial order is its queue order, then the hyper-vertex left in pq, then its stack order popped, so it holds every hyper-vertex of the component exactly once; the rollback set is exactly what the picks roll back; nothing outside the component and no edge changes |
| MinWGreedy.SerialOrder | protocol/loom/MinWRollback.cpp:1097-1111 | the serial order is the queue order, the hyper-vertex left in pq and the stack order popped, and holds every hyper-vertex of the component exactly once |
| MinWGreedy.RollbackNoEdge | protocol/loom/MinWRollback.cpp:1073-1117 | the weighed records are those calculateHyperVertexWeightNoEdge defines (Weighed, Priced) and the selection over them is exactly Greedy; the serial order is its final queue order, the hyper-vertex left over and the stack order popped, a permutation of the component; the rollback set is what the picks roll back; nothing outside the component changes |
| MinWEngine.Graph | protocol/loom/MinWRollback.cpp:1271 | the graph the component search reads has one entry per hyper-vertex |
| MinWEngine.ClosedTargets | protocol/loom/MinWRollback.cpp:1271-1274 | in a closed hyper-graph every edge target is a hyper-vertex, so the search stays inside m_hyperVertices |
| MinWEngine.LinkEdges | protocol/loom/MinWRollback.cpp:690-698 | onRWCNoEdge adds the one edge from the reader's hyper-vertex to the writer's and no other |
| MinWEngine.BuiltStep | protocol/loom/MinWRollback.cpp:215-221 | one more dependency handled: the hyper-edges are the original ones plus exactly those the handled dependencies ask for |
| MinWEngine.ShapeKeeps | protocol/loom/MinWRollback.cpp:1073-1117 | a component's rollback leaves edges and minima alone, so it keeps the graph closed and mirrored, the buckets exact and the minima sound and exact |
| MinWEngine.LinkAll | protocol/loom/MinWRollback.cpp:197-227 | onRWCNoEdge once per dependency, in any order: the hyper-edges added are exactly those the dependencies ask for, and closed, mirrored edge sets stay so |
| MinWEngine.MinWRollback.constructor | protocol/loom/MinWRollback.cpp:50-64 | the object starts with its vertices, hyper-vertices and inverted index, and an empty RW index, buckets and component list |
| MinWEngine.MinWRollback.OnWarm2RWIndex | protocol/loom/MinWRollback.cpp:50-64 | the RW index is the old one with every reader of a written key depending on its writers, never on itself |
| MinWEngine.MinWRollback.OnRWCNoEdge | protocol/loom/MinWRollback.cpp:674-704 | the hyper-vertices become LinkNoEdge's |
| MinWEngine.MinWRollback.BuildGraphNoEdgeC | protocol/loom/MinWRollback.cpp:177-228 | after the loop the hyper-graph has exactly the edges the RW index asks for, besides its own, and stays closed and mirrored |
| MinWEngine.MinWRollback.OnRWNoEdge | protocol/loom/MinWRollback.cpp:706-743 | the same bookkeeping up to minima; the graph stays closed, the buckets exact and the minima sound and exact |
| MinWEngine.MinWRollback.OnWarm2Scc | protocol/loom/MinWRollback.cpp:67-96 | the components partition the hyper-vertices of a closed graph, and those with more than one are appended to m_sccs |
| MinWEngine.MinWRollback.RollbackNoEdge | protocol/loom/MinWRollback.cpp:1073-1117 | the component is weighed as calculateHyperVertexWeightNoEdge defines and selected exactly as Greedy does; the serial order is the final queue order, the hyper-vertex left over and the stack order popped, holding every hyper-vertex of the component exactly once; the rollback set is what the picks roll back; the rest is untouched, and edges, minima and buckets keep their invariants |
| DeterGraph.MaxEndBounds | protocol/loom/DeterReExecute.cpp:15-35 | the start time the scan gives is at least 0, no earlier than the end of any earlier conflicting sub-transaction, and either 0 or exactly such an end |
| DeterGraph.MaxEndEarlier | protocol/loom/DeterReExecute.cpp:19-36 | the start time depends only on the start times of earlier entries |
| DeterGraph.ScheduleStable | protocol/loom/DeterReExecute.cpp:14-16 | before its own outer step a sub-transaction keeps its start time, and after it keeps what that step set |
| DeterGraph.DepsInBefore | protocol/loom/DeterReExecute.cpp:14-28 | dependencies_in of a sub-transaction is untouched before its own outer step |
| DeterGraph.DepsInAfter | protocol/loom/DeterReExecute.cpp:14-28 | and from then on holds exactly what its own step added |
| DeterGraph.UnConfStable | protocol/loom/DeterReExecute.cpp:17-39 | the same for the unconflicted sets |
| DeterGraph.DepsOutSuccs | protocol/loom/DeterReExecute.cpp:31 | dependencies_out of a sub-transaction ends up with exactly the later ones that conflict with it |
| DeterGraph.ScheduleFixpoint | protocol/loom/DeterReExecute.cpp:14-43 | every final start time is the latest end of the earlier conflicting sub-transactions, computed on the final schedule, or 0 |
| DeterGraph.OriginSchedule | protocol/loom/DeterReExecute.cpp:12-43 | no sub-transaction starts before an earlier conflicting one has ended, none starts before 0, and each starts at 0 or right at the end of such a predecessor |
| DeterGraph.PredsOf | protocol/loom/DeterReExecute.cpp:21-28 | with distinct ids an entry is a conflicting predecessor of another exactly when it comes earlier and the two conflict |
| DeterGraph.SuccsOf | protocol/loom/DeterReExecute.cpp:28-31 | the later entry is among the earlier one's successors exactly when the earlier one is among its predecessors |
| DeterGraph.OriginDepsIn | protocol/loom/DeterReExecute.cpp:12-43 | from empty sets, the b-th sub-transaction waits for the a-th exactly when a comes earlier and the two conflict, and waits for nothing outside the list |
| DeterGraph.OriginDepsOut | protocol/loom/DeterReExecute.cpp:12-43 | from empty sets, the a-th lists the b-th as waiting for it exactly when a comes earlier and the two conflict |
| DeterGraph.OriginUnConflict | protocol/loom/DeterReExecute.cpp:12-43 | every sub-transaction of the list gets an unconflicted set that gains exactly the sub-transactions of the list, itself included, it does not conflict with |
| DeterGraph.ConflictTest | protocol/loom/DeterReExecute.cpp:21-22 | the three hasConflict calls decide exactly whether the two write what the other reads or writes |
| DeterGraph.ScanStep | protocol/loom/DeterReExecute.cpp:20-40 | one comparison advances start time, dependencies_in, dependencies_out and the unconflicted set by exactly the i-th entry |
| DeterGraph.ScanEntry | protocol/loom/DeterReExecute.cpp:15-41 | the inner scan gives the j-th sub-transaction its start time, its conflicting predecessors and its unconflicted set, and adds it to each predecessor's dependencies_out |
| DeterGraph.BuildOrigin | protocol/loom/DeterReExecute.cpp:12-43 | the whole loop produces exactly the schedule, dependencies and unconflicted sets the outer steps define |
| DeterGraph.OriginStep | protocol/loom/DeterReExecute.cpp:14-42 | one outer step is the inner scan applied to the graph after the earlier steps |
| DeterGraph.OriginClosed | protocol/loom/DeterReExecute.cpp:12-43 | the graph only ever names known sub-transactions |
| DeterMoves.Late | protocol/loom/DeterReExecute.cpp:195-209 | the late dependencies are exactly those that start after the new start time |
| DeterMoves.RescheduleFlips | protocol/loom/DeterReExecute.cpp:182-218 | reschedule keeps dependencies_in and dependencies_out mirror images, moves every late dependency to the other side on both ends, and leaves the transaction waiting only for ones that start no later than its new start |
| DeterMoves.IdleIffDisjoint | protocol/loom/DeterReExecute.cpp:268-279 | with positive costs, isIdle holds exactly when the interval from the start shares no time unit with the interval of any dependency |
| DeterMoves.LatestEnd | protocol/loom/DeterReExecute.cpp:297-300 | the scan gives at least 0, at least every dependency's end, and either 0 or exactly one such end |
| DeterMoves.LatestOfBounds | protocol/loom/DeterReExecute.cpp:297-303 | the latest end over a dependency set is at least 0, at least every dependency's end, and 0 or one of them |
| DeterMoves.LatestUnique | protocol/loom/DeterReExecute.cpp:297-303 | those bounds pin the latest end down: two values meeting them are equal |
| DeterMoves.LaterOnes | protocol/loom/DeterReExecute.cpp:172-177 | the candidates are exactly the unconflicted sub-transactions that start strictly later |
| DeterMoves.CanReorderIff | protocol/loom/DeterReExecute.cpp:307-315 | two sub-transactions can be reordered exactly when their hyper ids have different order indices, a missing one reading as 0: never within one hyper-transaction; the entry operator[] inserts changes no later answer |
| DeterMoves.FlipLate | protocol/loom/DeterReExecute.cpp:194-216 | the loop and the removal leave dependencies_in and dependencies_out flipped for exactly the late dependencies |
| DeterMoves.FlipOne | protocol/loom/DeterReExecute.cpp:197-209 | one pass records c for removal when late and flips it on both ends |
| DeterMoves.FlipNothing | protocol/loom/DeterReExecute.cpp:187-189 | the early return for no dependencies changes nothing, as flipping would |
| DeterMoves.TimedStep | protocol/loom/DeterReExecute.cpp:286-289 | one step of the total-time loop keeps: start times at least 0 and after the earlier ones waited for, endTime the latest end |
| DeterMoves.RecomputedStep | protocol/loom/DeterReExecute.cpp:286-289 | one more step of Recomputed and Finish keeps starts after the earlier ones waited for and Finish the latest end |
| DeterMoves.RecomputedTimed | protocol/loom/DeterReExecute.cpp:283-292 | every prefix of Recomputed starts each listed sub-transaction after the earlier ones it waits for, with Finish the latest end |
| DeterMoves.TotalTime | protocol/loom/DeterReExecute.cpp:283-292 | the schedule is exactly Recomputed (step j sets the j-th listed start to the latest end of its dependencies on the schedule so far) and the result exactly Finish, the latest end; so each listed start is at least 0 and after every earlier one it waits for, the result bounds every end and cost and is 0 or one end, and unlisted start times are kept |
| DeterReExecution.DeterReExecute.constructor | protocol/loom/DeterReExecute.cpp:12-15 | a fresh graph: every start time 0, no dependencies, no unconflicted sets |
| DeterReExecution.DeterReExecute.BuildGraphOrigin | protocol/loom/DeterReExecute.cpp:12-43 | the graph becomes exactly what buildGraphOrigin's outer steps define, which OriginSchedule, OriginDepsIn, OriginDepsOut and OriginUnConflict characterise |
| DeterReExecution.DeterReExecute.GetCandidateTxSet | protocol/loom/DeterReExecute.cpp:171-178 | the candidates are exactly the unconflicted sub-transactions scheduled strictly later |
| DeterReExecution.DeterReExecute.Reschedule | protocol/loom/DeterReExecute.cpp:182-218 | the new start time is set and exactly the late dependencies flip on both ends |
| DeterReExecution.DeterReExecute.CalculateExecutionTime | protocol/loom/DeterReExecute.cpp:296-303 | the start becomes the latest end of the dependencies, or 0, and is returned |
| DeterReExecution.DeterReExecute.CalculateTotalExecutionTime | protocol/loom/DeterReExecute.cpp:283-292 | the start times become exactly Recomputed over the list and the result, also stored, exactly Finish: the latest end |
| TxIndex.Prefix | utils/Generator/UTxGenerator.cpp:121 | substr(0, n) is a prefix of the key, of length n when the key is that long |
| TxIndex.SpecialIsPrefix | utils/Generator/UTxGenerator.cpp:121 | the three substr comparisons decide exactly whether the key starts with Dytd-, S- or Cdelivery- |
| TxIndex.RWIndexMeaning | utils/Generator/UTxGenerator.cpp:113-140 | RWIndex has an entry for exactly the readers of a key with writers that is not special; the entry holds exactly the writers, other than the reader, of such keys it reads, and never the reader itself |
| TxIndex.RBIndexMeaning | utils/Generator/UTxGenerator.cpp:113-135 | RBIndex has an entry for exactly the special keys with writers read and written by at least two sub-transactions, holding those; no key feeds both indexes |
| TxIndex.RBIndexStep | utils/Generator/UTxGenerator.cpp:120-134 | visiting one key adds its entry to RBIndex exactly when the key qualifies |
| TxIndex.RWIndexSkip | utils/Generator/UTxGenerator.cpp:117-135 | a key skipped by the continue statements leaves RWIndex as it was |
| TxIndex.NoWritersSkipped | utils/Generator/UTxGenerator.cpp:117-119 | a key nobody writes changes neither index |
| TxIndex.RWIndexPartNone | utils/Generator/UTxGenerator.cpp:136-139 | before the reader loop RWIndex is what the visited keys gave |
| TxIndex.RWIndexPartStep | utils/Generator/UTxGenerator.cpp:137-138 | one reader gains the key's writers and loses itself, nobody else changes |
| TxIndex.RWIndexPartAll | utils/Generator/UTxGenerator.cpp:136-139 | after every reader RWIndex is what visiting the key too gives |
| TxIndex.ReadAndWrite | utils/Generator/UTxGenerator.cpp:123-128 | the intersection loop collects exactly the sub-transactions both reading and writing the key |
| TxIndex.AddWriters | utils/Generator/UTxGenerator.cpp:136-139 | the reader loop turns RWIndex for the visited keys into RWIndex for one key more |
| TxIndex.IndexInverted | utils/Generator/UTxGenerator.cpp:113-140 | the loop over the inverted index yields exactly the RWIndex and RBIndex of all its keys |
| TxIndex.OnWritesStep | utils/Generator/UTxGenerator.cpp:145-149 | one more write key adds its readers and writers |
| TxIndex.OnReadsStep | utils/Generator/UTxGenerator.cpp:150-153 | one more read key adds its writers |
| TxIndex.CollectOnWrites | utils/Generator/UTxGenerator.cpp:145-149 | the write-key loop collects the readers and writers of every write key, and fails exactly when at() would throw |
| TxIndex.CollectOnReads | utils/Generator/UTxGenerator.cpp:150-153 | the read-key loop collects the writers of every read key, and fails exactly when at() would throw |
| TxIndex.ConflictEntry | utils/Generator/UTxGenerator.cpp:143-156 | conflictIndex of one sub-transaction, failing exactly when one of its keys is missing |
| TxIndex.ConflictIndex | utils/Generator/UTxGenerator.cpp:143-156 | the conflict set of every sub-transaction in order, failing exactly when some key is missing |
| TxIndex.GenerateIndex | utils/Generator/UTxGenerator.cpp:108-157 | all three indexes, failing exactly when the inverted index lacks a key some sub-transaction touches |
| TxIndex.ConflictOfMeaning | utils/Generator/UTxGenerator.cpp:143-156 | on the block's own inverted index, conflictIndex lists exactly the other sub-transactions that write what it reads or writes, or read what it writes |
| TxIndex.ConflictOfSymmetric | utils/Generator/UTxGenerator.cpp:143-156 | with distinct ids conflictIndex is symmetric |
| TxIndex.RWIndexWithinConflicts | utils/Generator/UTxGenerator.cpp:136-156 | every read-write dependency RWIndex records is also a conflict |
| TxGen.BlockCount | utils/Generator/UTxGenerator.cpp:16 | the block count is the number of whole blocks in the transaction count, taken as size_t |
| TxGen.WorkloadTxNum | utils/UArgparse.hpp:84 | the transaction count handed to the generator is block size times block count whenever that product fits an `int` |
| TxGen.WorkloadBlocks | utils/Generator/UTxGenerator.cpp:16 | for the generator ParseWorkload builds, a non-zero block size whose product with the block count fits an `int` yields exactly that many blocks |
| TxGen.TxId | utils/Generator/UTxGenerator.cpp:77-78 | the txid lies in 1..blockSize whenever an int holds the block size |
| TxGen.TxIdFirst | utils/Generator/UTxGenerator.cpp:77-78 | the first blockSize ids get txids 1..blockSize |
| TxGen.TxIdPeriodic | utils/Generator/UTxGenerator.cpp:77-78 | ids blockSize apart get the same txid |
| TxGen.TxIdInBlock | utils/Generator/UTxGenerator.cpp:77-78 | after b whole blocks, the i-th transaction of the next block gets txid i + 1 |
| TxGen.TxIds | utils/Generator/UTxGenerator.cpp:77-78 | the txids handed out for consecutive ids |
| TxGen.SumFloorsBounds | utils/Generator/UTxGenerator.cpp:65 | adding double costs into a size_t loses less than one per transaction and never rounds up |
| TxGen.SumFloorsWhole | utils/Generator/UTxGenerator.cpp:65 | whole-number costs add up exactly |
| TxGen.BlockNumbering | utils/Generator/UTxGenerator.cpp:77-78 | on a fresh generator every generated block numbers its transactions 1..blockSize |
| TxGen.TxGenerator.constructor | utils/Generator/UTxGenerator.cpp:5 | the id counter starts at 0 with no block |
| TxGen.TxGenerator.GetId | utils/Generator/UTxGenerator.cpp:165-167 | getId returns the incremented counter |
| TxGen.TxGenerator.NextTxId | utils/Generator/UTxGenerator.cpp:76-78 | one id is consumed and the txid is its block-local number |
| TxGen.TxGenerator.GenerateBlock | utils/Generator/UTxGenerator.cpp:25-73 | consumes blockSize ids; fails exactly when indexing throws, and otherwise yields the block with the next blockSize txids, the sub-transactions of its transactions in order, the total cost truncated after each root cost, the RW and RB indexes of its inverted index, and the conflict set of each sub-transaction at its position |
| TxGen.TxGenerator.GenerateWorkload | utils/Generator/UTxGenerator.cpp:8-22 | generates the whole blocks numbered from 1, appends them to the blocks kept, and fails exactly when one block's indexing throws |
| ArgParse.Split | utils/UArgparse.hpp:32-40 | no token for the empty descriptor, and otherwise one more token than colons |
| ArgParse.SplitJoin | utils/UArgparse.hpp:32-40 | joining the tokens with ':' gives back the descriptor, and no token holds a ':' |
| ArgParse.JoinSplit | utils/UArgparse.hpp:32-40 | colon-free tokens are recovered from their join, unless the only token is empty |
| ArgParse.DigitRun | utils/UArgparse.hpp:42-47 | the leading digit run ends at the first non-digit |
| ArgParse.ToSize | utils/UArgparse.hpp:24-47 | INT yields at most SIZE_MAX, and 0 when no digit follows the leading white space and optional sign |
| ArgParse.ToSizeRoundTrip | utils/UArgparse.hpp:24-47 | INT reads back any size_t written in decimal |
| ArgParse.Extract | utils/UArgparse.hpp:42-47 | the extraction stores at most the type's maximum, consumes only characters of the input, at least one past the leading white space when it succeeds, and fails storing 0 when no digit follows the white space and optional sign |
| ArgParse.ExtractDigits | utils/UArgparse.hpp:42-47 | a run of digits within range is read as its value, and the extraction stops right after it |
| ArgParse.ExtractMinusDigits | utils/UArgparse.hpp:42-47 | a minus sign and a run of digits within range read as the value wrapped around, maximum + 1 - v |
| ArgParse.ExtractSkipsSpace | utils/UArgparse.hpp:42-47 | leading white space changes neither the outcome nor the value of an extraction |
| ArgParse.ToSizeNegative | utils/UArgparse.hpp:24-47 | INT of "-v" is SIZE_MAX + 1 - v |
| ArgParse.ToSizeSaturates | utils/UArgparse.hpp:24-47 | INT of a number past SIZE_MAX, with or without a minus sign, is SIZE_MAX |
| ArgParse.ToBool | utils/UArgparse.hpp:49-54 | only TRUE and FALSE are booleans, TRUE being true; anything else throws |
| ArgParse.UnitScale | utils/UArgparse.hpp:59-60 | exactly ms, s, m and h are units |
| ArgParse.ToMillisecondsRoundTrip | utils/UArgparse.hpp:56-73 | a count followed by a known unit is the count times the unit's scale; an unknown unit gives 0 |
| ArgParse.NoCountIsZero | utils/UArgparse.hpp:56-73 | a duration with no digit after its leading white space and optional sign is 0 ms |
| ArgParse.DurationSkipsSpace | utils/UArgparse.hpp:56-73 | leading white space does not change a duration |
| ArgParse.NegativeCountWraps | utils/UArgparse.hpp:56-73 | a negative count followed by a known unit wraps around unsigned: (UINT_MAX + 1 - n) times the unit's scale |
| ArgParse.ParseWorkload | utils/UArgparse.hpp:75-82 | succeeds exactly with five tokens or more whose fifth is a boolean word, and reads tokens 2-5 as warehouses, block size, block count and nesting; it stops at these values: the generator call that follows is defined only for a non-zero block size (`TxGen.WorkloadBlocks`) |
| ArgParse.ParseWorkloadRoundTrip | utils/UArgparse.hpp:75-87 | a descriptor written out from its fields parses back to them |
| ArgParse.Signature | utils/UArgparse.hpp:95-108 | exactly Serial, Aria, Harmony, Moss and Loom are known |
| ArgParse.ConvertArgs | utils/UArgparse.hpp:95-100 | converting succeeds exactly when there are enough tokens and every boolean argument is TRUE or FALSE; then the k-th value is INT of the k-th token for an integer kind, and whether that token is TRUE for a boolean kind |
| ArgParse.ParseProtocol | utils/UArgparse.hpp:89-109 | succeeds exactly for a known protocol name followed by exactly as many arguments as its signature, every boolean one TRUE or FALSE; the result names that protocol and its k-th argument is the (k+1)-th token converted to the k-th kind |
| BenchAblation.GetName | scripts/bench/bench-ablation.py:20-28 | fails exactly when the descriptor has fewer than two fields |
| BenchAblation.VariantNamesDistinct | scripts/bench/bench-ablation.py:20-28 | the four flag pairs get four different names |
| BenchAblation.GetNameOfFlags | scripts/bench/bench-ablation.py:20-28 | a descriptor ending in two flag words is named after its variant |
| BenchAblation.NameOfLastTwo | scripts/bench/bench-ablation.py:20-28 | get_name reads only the last two fields |
| BenchAblation.Attempt | scripts/bench/bench-ablation.py:74-113 | one pass of the try block is exactly one step of the fold |
| BenchAblation.RunTrials | scripts/bench/bench-ablation.py:73-113 | the trial loop is the fold of the runs, left to right |
| BenchAblation.CommitSumKeepsFailedRuns | scripts/bench/bench-ablation.py:78-113 | sum_commit totals the commit figure of every run that printed one, including runs that raise later |
| BenchAblation.FullRunsCount | scripts/bench/bench-ablation.py:111 | every complete run is counted once |
| BenchAblation.FullExtremumStep | scripts/bench/bench-ablation.py:83-92 | a complete run lowers the latencies to their minimum, raises tps to its maximum and takes the snapshot exactly when its ratio beats the best so far |
| BenchAblation.ExtremaOverRuns | scripts/bench/bench-ablation.py:63-86 | with the last flag TRUE and every run complete, the latencies are the least over the runs and tps the greatest |
| BenchAblation.LeastTxLatency | scripts/bench/bench-ablation.py:64-84 | tx_latency is a figure of some run and no run's is smaller |
| BenchAblation.LeastBlockLatency | scripts/bench/bench-ablation.py:65-85 | block_latency is a figure of some run and no run's is smaller |
| BenchAblation.GreatestTps | scripts/bench/bench-ablation.py:66-86 | tps is a figure of some run and no run's is larger |
| BenchAblation.SnapshotOfBestRun | scripts/bench/bench-ablation.py:71-92 | the breakdown latencies are those of the first run with the highest ratio, when some ratio beats 0, and are kept otherwise |
| BenchAblation.NoRatioKeepsSnapshot | scripts/bench/bench-ablation.py:71-92 | with no ratio above 0 the ratio stays 0 and the snapshot is not taken |
| BenchAblation.BestRunSnapshot | scripts/bench/bench-ablation.py:87-92 | with some ratio above 0 the snapshot is that of the first best run |
| BenchAblation.RatioNonNegative | scripts/bench/bench-ablation.py:71-89 | the kept ratio is never below 0 |
| BenchAblation.SumsUpToFailure | scripts/bench/bench-ablation.py:74-113 | with the last flag FALSE a run adds each of the twelve figures to its sum exactly when that figure and every one read before it were printed, is counted exactly when all twelve were, and leaves the extrema and the snapshot alone |
| BenchAblation.ExtremumStop | scripts/bench/bench-ablation.py:78-87 | the index of the first figure missing from a TRUE-flag run, every earlier one printed |
| BenchAblation.ExtremumSumsUpToFailure | scripts/bench/bench-ablation.py:78-86 | with the last flag TRUE a run adds each of the five shared figures to its sum exactly when it and every earlier figure were printed, and no other sum changes |
| BenchAblation.ExtremumCountUpToFailure | scripts/bench/bench-ablation.py:78-111 | with the last flag TRUE a run is counted exactly when all nine figures up to the ratio were printed and, if its ratio is a new best, the three breakdown latencies too; otherwise the count stays |
| BenchAblation.Mean | scripts/bench/bench-ablation.py:120-131 | a mean over the successful runs times their number gives back the sum |
| BenchAblation.MeanRow | scripts/bench/bench-ablation.py:114-131 | with the last flag FALSE every column is its sum divided by the successful-run count |
| BenchAblation.ExtremumRow | scripts/bench/bench-ablation.py:114-131 | with the last flag TRUE commit, overhead, rollback and rollback_ratio are means, tx/block latency and tps the extrema, concurrency_ratio the best ratio and the three breakdown latencies the snapshot |
| BenchAblation.MakeRow | scripts/bench/bench-ablation.py:114-131 | a row exists exactly when the descriptor has two fields, some run succeeded and, with the last flag TRUE, the snapshot was taken; its protocol is get_name's, the four shared columns are means, and the other columns are the means (flag FALSE) or the extrema and the snapshot (flag TRUE) |
| BenchAblation.NoSuccessNoRow | scripts/bench/bench-ablation.py:114-131 | runs none of which prints its commit figure produce no row (division by zero) |
| BenchAblation.NoRunNoRow | scripts/bench/bench-ablation.py:120 | no successful run produces no row |
| BenchAblation.NoCommitNoChange | scripts/bench/bench-ablation.py:74-78 | runs that raise before their commit figure change nothing |
| BenchAblation.MeanCommit | scripts/bench/bench-ablation.py:103-131 | with the last flag FALSE and every run complete, commit is the mean over the runs |
| LoomTable.ReadPassAborts | protocol/loom/Loom.cpp:100-112 | the read handler aborts tx exactly when some read key holds a write reservation of an older block, and it stops at the first such key, all earlier keys holding none |
| LoomTable.ReadPassCovers | protocol/loom/Loom.cpp:100-112 | when the read handler lets tx through, every read key holds a read reservation of tx's block with tx in it, or one of a newer block |
| LoomTable.ReadPassFrame | protocol/loom/Loom.cpp:100-112 | the read handler keeps every entry valid, never changes a write reservation, and leaves every key it does not read as it was |
| LoomTable.WritePassFrame | protocol/loom/Loom.cpp:114-123 | the write handler keeps every entry valid, never changes a read reservation, and leaves every key it does not write as it was |
| LoomTable.WritePassVictims | protocol/loom/Loom.cpp:114-123 | the readers the write handler aborts are exactly the readers of a newer block recorded on one of the write keys |
| LoomTable.WritePassSparesWriter | protocol/loom/Loom.cpp:114-123 | every reader the write handler aborts belongs to a newer block, so a writer never aborts itself |
| LoomTable.WritePassCovers | protocol/loom/Loom.cpp:114-123 | after the write handler every write key holds a write reservation of a block no newer than tx's |
| LoomTable.ExecutedReservations | protocol/loom/Loom.cpp:354-366 | a transaction that reaches its execution holds a covering read reservation on every read key and a covering write reservation on every write key |
| LoomTable.Table.ReleaseGets | protocol/loom/Loom.cpp:283-292 | every key tx read gets `FinalizeGet`, all other keys and every flag are unchanged |
| LoomTable.Table.ReleasePuts | protocol/loom/Loom.cpp:293-310 | every key tx wrote gets `FinalizePut`, all other keys and every flag are unchanged |
| OptMEUnits.Partition | protocol/optme/utils.hpp:49-50 | the loop splits the units into the sorted and the unsorted ones, each side in order |
| OptMEUnits.WriteSortPhases | protocol/optme/utils.hpp:76-118 | the write-side sort is its four loops run one after the other |

## Left out

- Thread pools, futures, barriers, atomics and worker loops: every operation is modelled by its sequential effect. The chunked parallel graph build (buildGraphNoEdgeC) becomes the pair-by-pair application of onRWCNoEdge.
- Each protocol's Start/Stop/Run, PreExecute and ParallelExecute loops, the statistics counters, wall-clock timing and logging: no logic beyond what is modelled.
- The TPC-C workload, its random transaction generators, buildVertexs and recognizeCascades: the transactions, their sub-transactions and the inverted index they fill are inputs (`TxGen.BlockInput`).
- Johnson's cycle enumeration (findCycles in FabricPP.cpp): the cycles of a component come from a function parameter, required to yield non-empty cycles.
- The definitions of Vertex::VertexCmpCycle and of the m_cycle_num field are not part of this model's sources (common/Vertex.h does not hold them). The cycle counts are modelled as a map (FabricPP.Num), and the queue order follows the comment at protocol/fabricPP/FabricPP.cpp:114: most cycles first, then the smaller id. Ids are numbers here, compared numerically.
- MinWRollback variants with explicit edge sets (onRW/onRWC, buildGraph, rollback, rollbackOpt1, the concurrent and Fibonacci-heap versions) and updateSCCandDependencyFastMode: only the NoEdge path of the core is modelled.
- The three-argument updateSCCandDependencyNoEdge and the rollbackNoEdge(bool) driver that loops over all components are not modelled; the model covers the per-component rollbackNoEdge(scc) without fast mode: its weights, its greedy selection and the serial order it builds.
- MinWGreedy.UpdateScc: visits the leaver's out-neighbours, then its in-neighbours, each in ascending id order (MinWGreedy.OutNeighbours, MinWGreedy.InNeighbours). The source iterates unordered sets, whose order the language leaves unspecified; when two neighbours both leave, which one is updated around first can differ from the source's, and the model fixes one such order.
- The two-argument strongconnect (protocol/loom/MinWRollback.cpp:1220-1256): it is only reached from commented-out code, and its effect is recognizeSCC's followed by the size filter.
- Scc.Tarjan.StrongConnect: states the frame and stack discipline of one call, not that each popped component is a strongly connected component.
- Scc.RecognizeScc: proves that the components partition the vertices and that the size filter and the answer are right; it does not prove the components are the graph's strongly connected components.
- MinWScc.OnWarm2Scc: the same for Gabow's search; maximality of the components is not proved.
- FabricPP.Engine.Tarjan: inherits the gap of Scc.RecognizeScc; the components partition the vertices, but are not proved to be the strongly connected components.
- MinWEngine.MinWRollback.OnWarm2Scc: inherits the gap of MinWScc.OnWarm2Scc; the components partition the hyper-vertices of a closed graph, but are not proved maximal.
- MinWEngine.LinkAll: states the hyper-edges added, not the weights, in-costs and rollback sets summed over all dependencies; those are stated for one dependency (MinWGraph.LinkNoEdgeSpec), and MinWEngine.MinWRollback.BuildGraphNoEdgeC inherits the same limit.
- MinWIndex.FastRollback: requires every rollback-index entry to be non-empty. The generator only creates entries with two or more members, and the source steps past the first element of an entry without a check. The contract states which victims are appended, not their order or multiplicity.
- The three-argument fastRollback overload (protocol/loom/MinWRollback.cpp:2860-2893), which sends the victims of keys other than S- and Cdelivery- to a separate nested list: only the two-argument version is modelled.
- OptMEUnits.AddressRank: states that the names are those of some permutation ranked by the comparator. The comparator is strict and total on distinct addresses, so that permutation is unique; uniqueness is not stated.
- AriaER.CompareReservedPut: requires a holder whenever the batch matches, because the source dereferences the holder before it tests for null. AriaER.ValidEntryHasHolder shows every entry the reserve operations build meets this.
- The operator[] entry creation on lookups (m_unConflictTxMap, m_orderIndex, RWIndex) is modelled as reading an absent entry as empty or 0. DeterMoves.CanReorderIff shows the entry canReorder inserts changes no later answer.
- DeterReExecute's ordering of its lists by scheduled time (lessScheduledTime), rescheduleTransactions, recursiveRescheduleTxs and the nested buildGraph: the model covers the origin graph and the single-step operations they are built from.
- DeterReExecute's constructors beyond the fresh graph: the order index is a parameter of canReorder.
- Costs in DeterReExecute are integers here, where the source keeps doubles: the proofs need exact arithmetic on interval ends.
- Values read and written by transactions (the `local_get`/`local_put` contents, the storage handlers) are kept only where a table decision depends on them. LoomTable.Table.Execute takes the storage handlers as those of protocol/loom/Loom.cpp:100-123.
- LoomTable.Table.Execute: the abort check after each write reservation (protocol/loom/Loom.cpp:121) and after the write handler is not modelled. With one worker a write never aborts its own writer (LoomTable.WritePassSparesWriter), so only a concurrent worker could set the flag there. The read and write sets are unordered sets in the source; the model takes their iteration order as a sequence.
- TxGen.TxGenerator.GenerateBlock: conflictIndex is a sequence aligned with the block's sub-transactions, where the source keys it by vertex pointer. The RWSets field order and pointer identity are not modelled.
- TxGen.SumFloorsBounds: totalCost is a `size_t` increased by a `double`. The model truncates at each step; the 64-bit wrap and double rounding of very large sums are not modelled.
- ArgParse.ParseWorkload: the assignments to the globals `TPCC::N_WAREHOUSES` and `loom::BLOCK_SIZE` and the `TxGenerator(...).generateWorkload(is_nest)` call are not modelled; the function returns the four parsed values. A block size of 0 makes that call divide by zero in the source (utils/Generator/UTxGenerator.cpp:16); the block count is stated, by `TxGen.WorkloadBlocks`, only for a non-zero block size, taking the generator's block size to be the `loom::BLOCK_SIZE` just assigned (the header that supplies the constructor's second argument is not part of this model).
- OptMEUnits.ReadUnits.Sort: `max_seq` is an unbounded `nat`; the source's `uint32_t` `max_seq + 1` wraps at 2^32, which is not modelled.
- OptMEUnits.WriteUnits.Sort: `max_seq` and the fresh `write_seq` values are unbounded `nat`s; the source's `uint32_t` sequence numbers wrap at 2^32, which is not modelled.
- TxGen.TxId: the 32-bit overflow of the id counter and of the `int` loop index are not modelled; the range 1..blockSize is proved for block sizes below 2^31.
- TxGen.TxGenerator.GenerateWorkload: requires a non-zero block size (the source divides by it). When a block's indexing throws, the source leaves the blocks already pushed; the model reports the failure without that partial list.
- ArgParse.ToSize: a token that is empty or only white space makes the extraction fail before it stores anything, so the source returns an uninitialized `size_t`; the model reads it as 0. ToSize no longer claims 0 for every token that does not start with a digit: leading white space and a sign are read as `>>` reads them.
- ArgParse.NoCountIsZero: no longer covers tokens that start with white space or a sign and then have digits; those are read as counts (ArgParse.DurationSkipsSpace, ArgParse.NegativeCountWraps).
- OptME's InterEpochReordering calls a loom::hasContain that is not in the available source: it is modelled as the hasContain of protocol/common.h: true when every key of the epoch's set is among the transaction's read (write) keys.
- Plotting, CSV output, the subprocess call and the regular-expression parsing of the bench script: a run is modelled by the figures the patterns find, `None` where a pattern fails.
- Floating-point rounding, and the infinities of the bench script's starting values: figures are reals, with the infinities made explicit (`BenchAblation.Ext`).

## Findings

| source | as written | input that shows it | evidently intended | confidence | as-written member | corrected member |
|---|---|---|---|---|---|---|
| protocol/harmony/Harmony.cpp:48 | the batch of a chunk is `j % num_threads`, where j is the chunk's first position | 4 transactions and 2 threads: chunks start at 0 and 2, both go to batch 0, and thread 1 gets nothing | chunk i goes to thread i, so each thread gets one chunk | not executed | Harmony.SplitCanLeaveThreadIdle | Harmony.BalancedSplitIsBounded |
