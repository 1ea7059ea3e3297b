# Verified models of aggkit

This project models the stateful core of agglayer/aggkit in Dafny and proves what it keeps over whole runs:

- the local-exit-tree bookkeeping of the L2 bridge syncer (`Bridge*.dfy`): the bridge table, its archive and the exit
  tree under Bridge, BackwardLET and ForwardLET events, what those events mean, what a reorg restores, and when the exit tree with its cache
  does what the bookkeeping needs (`BridgePuts.dfy`, `BridgeOnTree*.dfy`, `BridgeReorgOnTree.dfy`);
- the append-only Merkle exit tree itself (`Merkle*.dfy`, `ExitTree.dfy`, `TransactionRollback.dfy`): cached insertion,
  proofs, and what a rolled back transaction does to the cache;
- the bridge service's searches (`ExitRootTable.dfy`, `BatchSearch.dfy`, `L1InfoSearch.dfy`) and its single-flight
  health cache (`SingleFlight.dfy`);
- the bridge service finder (`Finder*.dfy`) and its block scan (`Scan.dfy`);
- two concurrent collectors: the tracker's latest-value notification (`LatestValue.dfy`) and the validator committee's
  threshold collection (`Committee.dfy`, `CommitteeRuns.dfy`);
- four algorithms: exponential backoff (`Backoff.dfy`), call-trace search (`CallTrace.dfy`), the global index codec
  (`GlobalIndex.dfy`) and chunked range queries (`RangeQuery.dfy`).

`dafny verify dfyconfig.toml` checks everything.

## How the code is modelled

Code that changes state is a class whose methods are proved against functions on values; the theorems about runs are
about those functions. Database tables are sequences and maps, and one transaction is one function that either yields
new tables or a failure. Hash functions, contract reads, health probes and node answers are parameters of the step that
uses them, so every theorem holds for all of them. `Injective` stands for a collision-free node hash. Concurrent code is
a state machine whose steps are the sections under a mutex and the single channel operations; a run is any sequence of
enabled steps.

## What turned out to be conditional

Each of these is a property the code promises or suggests, with the exact condition under which it holds:

- A reorg leaves the tables as if the dropped blocks had never been processed if and only if the dropped blocks hold no
  BackwardLET, or their BackwardLETs cut into the earlier rows at most once and span nothing archived before
  (`BridgeReorg.ReorgUndoes`). An input fails each half: nested BackwardLETs
  (`BridgeReorgLimits.NestedBackwardLETsDefeatReorg`), and a deposit count archived before the dropped blocks, whose old
  row the reorg brings back in place of the one that replaced it (`BridgeReorgStale.ArchivedRowComesBackStale`).
- Over a run of blocks the exit tree stays sound (its tables describe the leaves of the bridge table and its cache fits
  them) and the syncer does what it would do on a plain list of leaves if and only if every block is harmless
  (`BridgeOnTree.RunsStaySoundIff`; with reorgs, `BridgeReorgOnTree.StepsStaySoundIff`). `BridgePuts.Harmless` is a test
  on the tables, the cached index and the block alone, with no node hash and no cached sibling: each put is at the number
  of leaves and newer than the rows before it, or at an index the cache does not expect either, and a failing block takes
  back at most as many puts as the lowest set bit of what it leaves. Well-formed blocks that commit on lists and undoable
  reorgs are always harmless (`BridgeOnTree.CommittedRunsAgree`, `BridgeReorgOnTree.CommittedStepsAgree`). Two failing
  inputs: a block that fails after two exits on one leaf and is replaced after a reorg
  (`BridgeOnTreeLimits.PurgeDoesNotRepair`), and a deposit count that only the cache expects after a BackwardLET
  (`BridgeOnTreeLimits.StaleIndexGoesAstray`).
- After a transaction is rolled back, the exit tree's cache fits the leaves that come back if and only if nothing was
  put, nothing is left below the puts, or the puts are at most the lowest set bit of what is left below them, because the
  rollback takes back the cached index but not the cached left siblings (`TransactionRollback.RollbackFitsIff` for any
  puts, refusals and truncations; for puts alone `MerkleRollback.RollbackIsHarmlessIff`, for a truncation and then puts
  `TransactionRollback.TruncateThenPutIsHarmlessIff`).
- The exit tree refuses an index other than the number of leaves if and only if the cache does not expect it either or
  the root computed for it is stored already (`ExitTree.AppendOnlyTree.PutLeaf`; an accepted stray index is
  `ExitTree.CacheExpectsIndex` and, on the class, `ExitTree.AppendOnlyTree.PutAfterTruncation`).
- With a known last exit root, the L1 info search finds a covering leaf unless block 0 holds a leaf already past the
  deposit; then the unsigned upper bound wraps and the search fails (`L1InfoSearch.Search`, `L1InfoSearch.WrapExample`).
- When the last L1 info leaf has an exit root the bridge does not know, the search is clamped to the bridge's newest
  block, and its answer covers the deposit if and only if the last leaf up to there or a leaf that opens its block does
  (`L1InfoSearch.AnswerCoversIff`; a failing input is `L1InfoSearch.ClampedLeafFallsShort`).
- A served network shows its JSON-RPC override if and only if the start, a discovery or a refresh has installed its entry
  at least once (`FinderExact.RpcOverrideIsShownIff`; a failing run is `FinderRuns.RpcOverrideCanBeMissing`).
- One log keeps the health gate if and only if it does not announce a new contract for a served network whose other URL
  just failed its probe while the served one is healthy; it keeps the source ranks if and only if neither such a contract
  nor a metadata clear brings in a lower-ranked answer. The same holds step by step over runs
  (`FinderExact.GateHoldsIff`, `FinderExact.RankHoldsIff`, `FinderExact.RunsHoldIff`; a failing run is
  `FinderRuns.SecondContractBreaksTheGate`).
- The backoff table is filled before the configuration is validated. For every configuration the loop stops if and only
  if retries are bounded or the signs and sizes of start, multiplier and cap let some backoff pass the cap
  (`Backoff.StopsExactly`).
- A bridge's global index decodes to its network if and only if the bridge is not pre-Etrog or the network is 1, whose
  encoding the bare deposit count coincides with (`GlobalIndex.BridgeDecodes`).

Where code and comments disagree, the model follows the code: the mainnet example in the comment above
`GenerateGlobalIndex` (bridgesync/processor.go:1724) is eight bytes long, the encoding is nine.

## Model

| member | source | states |
|---|---|---|
| `BridgeAgreement.RunsFromEmptyAgree` | bridgesync/processor.go:1003-1134 | with the exit tree as the list of its leaves: after every run of blocks from an empty database row i has deposit count i, the tree has as many leaves as rows, and leaf i is the hash of row i |
| `BridgeAgreement.RunsAgree` | bridgesync/processor.go:1003-1134 | the same from any agreeing tables |
| `BridgeAgreement.EventAgrees` | bridgesync/processor.go:1031-1104 | on the list of leaves, every event that succeeds keeps table and tree in agreement |
| `BridgeAgreement.TruncateCuts` | bridgesync/processor.go:1155-1206 | a truncation to n cuts both table and tree exactly at n and archives exactly the rest |
| `BridgeAgreement.AppendLeavesAgrees` | bridgesync/processor.go:1317-1406 | appending ForwardLET leaves keeps the agreement |
| `BridgeAgreement.HaltedIsStuck` | bridgesync/processor.go:1003-1007 | once halted, no sequence of blocks changes anything |
| `BridgeEvents.RunReplays` | bridgesync/processor.go:1003-1134 | a committed run of blocks leaves exactly the rows and leaves that replaying its events gives: each bridge with its own columns and the hash of its own content, each ForwardLET leaf at the next deposit count and position, each BackwardLET a cut |
| `BridgeEvents.BlockReplays` | bridgesync/processor.go:1003-1134 | the same for one block |
| `BridgeEvents.BridgeIsStored` | bridgesync/processor.go:1039-1063 | a bridge event appends its own row, with the running position if there is one, and the leaf of its own content, and nothing else; says exactly when it is refused and when it halts |
| `BridgeEvents.BackwardAcceptedIff` | bridgesync/processor.go:1208-1291 | a BackwardLET is recorded if and only if its roots name the tree before and after the cut, its count fits, and its place is free; every refusal is a rejection that does not halt |
| `BridgeEvents.ForwardChecksRoots` | bridgesync/processor.go:1208-1420 | an accepted ForwardLET names the tree before it and the tree with exactly its leaves appended; a wrong previous root is a rejection, and a wrong new root is never accepted |
| `BridgeEvents.InitialRootMeansEmpty` | bridgesync/processor.go:1223-1231 | naming the initial root means the tree is empty, if no tree has the zero root |
| `BridgeEvents.EventsAreRecorded` | bridgesync/processor.go:1003-1134 | a committed block records its LET events in order |
| `BridgeEvents.BlockHalts` | bridgesync/processor.go:1051-1057 | a block halts the syncer only if some event of it has a leaf out of place |
| `BridgeEvents.BadBridgeHaltsSyncer` | bridgesync/processor.go:1051-1057 | a bridge that is not the next exit halts the syncer whatever follows it, and nothing of the block is kept |
| `BridgeEvents.MisplacedForwardHalts` | bridgesync/processor.go:1317-1406 | so does a ForwardLET whose leaves do not start at the end of the tree |
| `BridgeEvents.RemovedRowsAreArchived` | bridgesync/processor.go:1155-1206 | a removed row is archived whole and marked as removed, unless its deposit count was archived before |
| `BridgeEvents.RestoredRowsAreLive` | bridgesync/processor.go:917-973 | after a reorg every row is one of the earlier blocks or an archived one marked live again |
| `BridgeOnTree.RunsStaySoundIff` | bridgesync/processor.go:1003-1134 | over a run of blocks on the tree with its cache, the tree stays sound after each block, and the syncer does what it does on the list, if and only if each block passes the test on tables, cached index and events when its turn comes |
| `BridgeOnTree.BlockStaysSoundIff` | bridgesync/processor.go:1003-1134 | the same for one block, failing and halting ones included |
| `BridgeOnTree.HarmlessRunsAgree` | bridgesync/processor.go:1003-1134 | over harmless blocks, equal leaves included, the tables are those of the bookkeeping on lists, table and tree agree, and the cache fits |
| `BridgeOnTree.CommittedRunsAgree` | bridgesync/processor.go:1003-1134 | from an empty database every well-formed run that commits on lists commits on the tree, with the same tables, in agreement and in order, and with a cache that fits |
| `BridgePuts.CommittedBlockIsHarmless` | bridgesync/processor.go:1003-1134 | a well-formed block that commits on lists is harmless whatever index the cache was left at |
| `BridgePuts.OrderedReorgIsHarmless` | bridgesync/processor.go:826-973 | a reorg that succeeds on lists and leaves the leaves in order is harmless |
| `BridgePuts.BlockWalks` | bridgesync/processor.go:1003-1134 | the test walks a block to the same tables or failure as the bookkeeping on lists, unless a put is out of place |
| `BridgeOnTree.AttemptFollows` | bridgesync/processor.go:1021-1104 | what a block does on the tree, hashing included, is decided by the walk over indices and positions: it succeeds, fails, meets a leaf that is already there or goes astray exactly as the walk says, and otherwise as on lists |
| `BridgeOnTree.NextPutFollows` | tree/appendonlytree.go:38-91 | the put at the number of leaves succeeds, or goes astray exactly when its position is not newer than the last row's |
| `BridgeOnTree.OtherPutFollows` | tree/appendonlytree.go:40-53 | any other put is refused exactly when the cache does not expect it, meets its own root exactly when its leaf is already at that index, and else goes astray |
| `BridgeOnTree.StoredRootHasLeaf` | tree/appendonlytree.go:54-78 | whatever the cached siblings are, a root that is stored already comes out only for a leaf that is already at that index |
| `BridgeOnTree.PutOnTreeIsPutLeaf` | tree/appendonlytree.go:38-91 | what a put accepts and the cache it leaves are those of the exit tree's tables, and with a fit cache it succeeds exactly when the tables accept it, at the number of leaves and newer than the last root |
| `BridgeOnTree.BackwardFollows` | bridgesync/processor.go:1239-1291 | a BackwardLET on the tree does what it does on lists, never goes astray and leaves cached index and put count alone |
| `BridgePuts.WellFormedIsInSequence` | bridgesync/processor.go:1031-1104 | in a well-formed block every new leaf is newer than the last row |
| `BridgeOnTreeLimits.RolledBackLeafIsHashedIn` | tree/appendonlytree.go:85-89 | one leaf, then a block that fails after two exits: the block with the two exits alone goes astray, its first exit hashed with the rolled back second one |
| `BridgeOnTreeLimits.PurgeDoesNotRepair` | bridgesync/processor.go:905-910 | the failing block, a purge that deletes nothing, and the block that replaces it lose the tree, where the list commits all three leaves |
| `BridgeOnTreeLimits.BackwardLeavesCache` | tree/tree.go:247-254 | two leaves, BackwardLET to one: harmless, and the cache still expects index 2 |
| `BridgeOnTreeLimits.StaleIndexGoesAstray` | tree/appendonlytree.go:40-53 | a Bridge with deposit count 2 is then let through by the tree, where the list halts |
| `BridgeOnTreeLimits.OneLeafIsReached` | bridgesync/processor.go:1003-1134 | the start of the first input is reached from an empty database |
| `BridgeOnTreeLimits.TwoLeavesAreReached` | bridgesync/processor.go:1003-1134 | so is the start of the second |
| `BridgeReorgOnTree.ReorgStaysSoundIff` | bridgesync/processor.go:826-973 | a reorg on the tree keeps it sound, with the tables of the reorg on lists, if and only if it passes the test on tables and cached index |
| `BridgeReorgOnTree.ReorgFollows` | bridgesync/processor.go:826-973 | what a reorg does on the tree is decided by its walk over indices and positions, and otherwise as on lists |
| `BridgeReorgOnTree.HarmlessStepsAgree` | bridgesync/processor.go:826-1134 | over any run of harmless well-formed blocks and undoable reorgs, failing blocks and halts included, the tables are those of the bookkeeping on lists, agree with the tree and stay in order |
| `BridgeReorgOnTree.StepsStaySoundIff` | bridgesync/processor.go:826-1134 | over such a run the tree stays sound after each step if and only if each step is harmless when its turn comes |
| `BridgeReorgOnTree.UndoableReorgIsHarmless` | bridgesync/processor.go:826-973 | an undoable reorg succeeds and is harmless whatever index the cache was left at |
| `BridgeReorgOnTree.CommittedStepsAgree` | bridgesync/processor.go:826-1134 | from an empty database every run of well-formed blocks that commit and of undoable reorgs does on the tree what it does on lists |
| `BridgeRuns.ReorgAgrees` | bridgesync/processor.go:826-973 | a reorg that succeeds leaves table and tree in agreement, undoable or not |
| `BridgeRuns.MixedRunGood` | bridgesync/processor.go:826-1134 | over any run of well-formed blocks and undoable reorgs, agreement and strict order are kept |
| `BridgeOrder.RunGood` | bridgesync/processor.go:1003-1134 | over well-formed runs, leaves and rows carry strictly increasing (block, position) pairs, across ForwardLETs too, and refer only to stored blocks |
| `BridgeOrder.EventGood` | bridgesync/processor.go:1031-1104 | one event keeps the strict order and the running block position ahead of everything stored |
| `BridgeOrder.AppendLeavesGood` | bridgesync/processor.go:1317-1406 | the rows a ForwardLET adds get strictly increasing positions and the position returned follows the last |
| `BridgeOrder.NewestRootIsLast` | tree/tree.go:186-204 | the root that is newest by block and position is the root of the last leaf |
| `BridgeReorg.ReorgUndoes` | bridgesync/processor.go:826-999 | for all tables and all later blocks, Reorg succeeds with the earlier tables, up to the Source column, if and only if the dropped BackwardLETs are undoable |
| `BridgeReorg.ReorgUndoesSuffix` | bridgesync/processor.go:826-999 | the same for whole runs from an empty database |
| `BridgeReorg.ReorgUndoesOne` | bridgesync/processor.go:826-999 | a single BackwardLET with nothing archived before in its closed range is always undone |
| `BridgeReorg.RestoreByCuts` | bridgesync/processor.go:917-973 | restoring rebuilds the earlier rows and leaves exactly when the BackwardLETs cut into them at most once |
| `BridgeReorg.ReorgArchive` | bridgesync/processor.go:917-999 | after a reorg the archive is the earlier one exactly when no BackwardLET spans an earlier archived row |
| `BridgeReorg.SinceRun` | bridgesync/processor.go:1003-1291 | what any run of later blocks leaves of the earlier rows, leaves and archive |
| `BridgeReorgLimits.NestedBackwardLETsDefeatReorg` | bridgesync/processor.go:917-973 | a concrete run with nested BackwardLETs whose reorg does not give the earlier tables back |
| `BridgeReorgStale.ArchivedRowComesBackStale` | bridgesync/processor.go:917-999 | a run whose reorg succeeds with a row archived before the dropped blocks in place of the one that had taken its deposit count |
| `BridgeRoundTrip.BackwardForwardRestores` | bridgesync/processor.go:1239-1420 | from an empty archive, BackwardLET to n then ForwardLET with the removed leaves, in the same block or a later one, restores leaf sequence, root and contents; transaction hash, sender and from-address come back exactly for rows whose content is unique among the removed ones |
| `BridgeRoundTrip.ForwardAfterBackwardIsAccepted` | bridgesync/processor.go:1294-1420 | that ForwardLET is accepted in any open block when it names the roots and deposit count the BackwardLET left |
| `BridgeRoundTrip.RecoveryInOneBlock` | bridgesync/processor.go:1239-1420 | both events in one block: accepted and restored |
| `BridgeRoundTrip.RecoveryInLaterBlock` | bridgesync/processor.go:1003-1420 | the BackwardLET in one block and the ForwardLET in a later one: both blocks are accepted and everything is restored |
| `BridgeRoundTrip.LookupFindsUnique` | bridgesync/processor.go:1323-1377 | the archive lookup by content answers exactly when one archived row has it |
| `BridgeProcessor.Processor.constructor` | bridgesync/processor.go:524-544 | starts empty and not halted |
| `BridgeProcessor.Processor.ArchiveAndDeleteBridgesAbove` | bridgesync/processor.go:1155-1206 | the loop archives the rows from n on, keeping rows archived earlier, and deletes them |
| `BridgeProcessor.Processor.InsertBackwardLET` | bridgesync/processor.go:1239-1291 | accepts only an event whose roots name the tree before and after, and rejects any other; truncates table and tree, records the event and keeps table and tree in agreement |
| `BridgeProcessor.Processor.AppendForwardLeaves` | bridgesync/processor.go:1317-1406 | the loop over decoded leaves adds one row and one leaf each, and halts when the tree refuses one |
| `BridgeProcessor.Processor.HandleForwardLET` | bridgesync/processor.go:1294-1420 | accepts only an event whose roots name the tree before it and the tree with its leaves appended; a wrong previous root is rejected without a halt |
| `BridgeProcessor.Processor.HandleEvent` | bridgesync/processor.go:1031-1104 | one event inside the transaction leaves the exits and the position its replay gives, and table and tree in agreement |
| `BridgeProcessor.Processor.ProcessBlock` | bridgesync/processor.go:1003-1134 | all of the block or nothing of it: a committed block leaves the replay of its events, table and tree in agreement, and notifies exactly if it has a bridge |
| `BridgeProcessor.Processor.RestoreBackwardLETBridges` | bridgesync/processor.go:917-973 | restores the BackwardLETs' ranges in table order |
| `BridgeProcessor.Processor.RestoreOne` | bridgesync/processor.go:942-961 | re-inserts the archived rows of one range, skipping those of dropped blocks |
| `BridgeProcessor.Processor.Reorg` | bridgesync/processor.go:826-915 | purges the blocks, restores, and clears the halt; a failed reorg changes nothing, and from tables in order table and tree agree afterwards |
| `MerkleTree.PutIsRight` | tree/appendonlytree.go:38-91 | with a good left cache, inserting computes the root of the extended sequence and leaves a good cache |
| `MerkleTree.RootIsRightIffCacheIs` | tree/appendonlytree.go:54-69 | the computed root is right if and only if the cache is good where the next index needs it |
| `MerkleTree.RootIsBinding` | tree/appendonlytree.go:38-91 | two leaf sequences with one root differ only by trailing zero leaves |
| `MerkleTree.DefaultCapacity` | tree/tree.go:48-60 | a tree of the default height has room for every 32-bit index |
| `MerkleProof.ProofIsExact` | tree/tree.go:62-115 | a proof verifies if and only if it names the leaf at its index and consists of the siblings of its path |
| `MerkleProof.CalculateRoot` | tree/tree.go:257-271 | the loop computes the node the proof leads to |
| `MerkleProof.VerifyProof` | tree/tree.go:274-284 | for any expected root, accepts what climbs to it; for a root that commits to leaves, exactly the true leaf with its true siblings |
| `MerkleRollback.RollbackIsHarmlessIff` | tree/appendonlytree.go:85-89 | rolling back k puts on n leaves is harmless for every next leaf if and only if n is 0 or k is at most the lowest bit of n |
| `MerkleRollback.ShortBatchIsHarmless` | tree/appendonlytree.go:85-89 | up to that many rolled back leaves leave the needed cache entries alone |
| `MerkleRollback.LongBatchHarms` | tree/appendonlytree.go:85-89 | beyond it some rolled back leaves leave the cache wrong |
| `TransactionRollback.RollbackFitsIff` | tree/appendonlytree.go:85-89 | after any transaction of puts, refused puts and truncations, the rolled back cache fits if the puts taken back are few enough for what they leave and, with different leaves, only then |
| `TransactionRollback.TruncateThenPutIsHarmlessIff` | tree/appendonlytree.go:85-89 | a truncation to m and n puts, rolled back: for every choice of leaves the cache fits exactly when n or m is zero or n is at most the lowest bit of m |
| `TransactionRollback.AppendStaysWithin` | tree/appendonlytree.go:38-91 | every put of a transaction, also after truncations, leaves the cache of the leaves it worked on |
| `ExitTree.AppendOnlyTree.constructor` | tree/appendonlytree.go:28-36 | a new tree is empty and valid |
| `ExitTree.AppendOnlyTree.InitCache` | tree/appendonlytree.go:92-135 | walking down from the newest root rebuilds a good cache and the last index |
| `ExitTree.AppendOnlyTree.CacheLeftChildren` | tree/appendonlytree.go:110-135 | the walk stores exactly the left siblings the next put needs |
| `ExitTree.AppendOnlyTree.Climb` | tree/appendonlytree.go:54-69 | the loop from leaf to root yields the root, the new nodes and the new cache |
| `ExitTree.AppendOnlyTree.PutLeaf` | tree/appendonlytree.go:38-91 | accepts an index exactly when the tree or the cache expects it and the computed root is not stored; states the cache either way; the next index with a newer position extends the sequence, any other accepted put leaves tables that describe no leaves |
| `ExitTree.AppendOnlyTree.Extend` | tree/appendonlytree.go:54-89 | storing root and nodes of the next leaf makes the tables describe the extended sequence |
| `ExitTree.NextPutIsRight` | tree/appendonlytree.go:38-91 | with a fit cache the next index gets the root of the extended sequence |
| `ExitTree.StrayIndexIsCached` | tree/appendonlytree.go:40-53 | an index other than the number of leaves gets through only if the cache expects it |
| `ExitTree.CacheExpectsIndex` | tree/appendonlytree.go:40-53 | with the cache of two leaves, the tree of the first alone accepts index 2 |
| `ExitTree.AppendOnlyTree.PutAfterTruncation` | tree/appendonlytree.go:40-53 | the same on the class: two leaves, back to index 0, and index 2 is accepted |
| `ExitTree.StoredRootHasProof` | tree/tree.go:62-115 | for every stored root the siblings read from the node table are the true ones and the true leaf verifies with them |
| `ExitTree.UnknownRootReadsZeros` | tree/tree.go:62-115 | for a root the node table does not know the proof is that of an empty tree, without an error |
| `ExitTree.AppendOnlyTree.BackwardToIndex` | tree/tree.go:247-254 | keeps exactly the leaves and roots up to the index |
| `ExitTree.AppendOnlyTree.Reorg` | tree/tree.go:238-245 | drops exactly the roots of the blocks from the first one on, which is a suffix |
| `ExitTree.AppendOnlyTree.Rollback` | tree/appendonlytree.go:85-89 | restores the tables and the index but not the cache, and the tree is valid afterwards exactly when the cache still fits; no assumption on what the transaction did |
| `ExitTree.AppendOnlyTree.GetLastRoot` | tree/tree.go:186-204 | returns the root of the whole sequence |
| `ExitTree.AppendOnlyTree.GetSiblings` | tree/tree.go:62-115 | the walk down from any root reads the siblings, with zero hashes below a missing node |
| `ExitTree.AppendOnlyTree.GetProof` | tree/tree.go:225-235 | the true siblings for every stored root, zero siblings for an unknown one |
| `ExitTree.AppendOnlyTree.ZeroHashes` | tree/tree.go:48-60 | the loop computes the zero node of every level |
| `ExitRootTable.Table.AtIsFirst` | l1infotreesync/processor_verifybatches.go:97-106 | the lookup at or after a block returns the first row of the first block that has one |
| `ExitRootTable.Table.FirstCoveringIsFirst` | bridgeservice/bridge.go:2187-2223 | what the linear scan looks for is the first covering row, if any |
| `BatchSearch.StepKeepsBounds` | bridgeservice/bridge.go:2109-2153 | one step keeps the bounds and shrinks them, or answers as the linear scan would, or falls back only because a root is missing |
| `BatchSearch.Binary` | bridgeservice/bridge.go:2155-2185 | terminates without unsigned wrap-around and returns a batch with the linear scan's root index, the same batch when indices are distinct, or asks for the fallback only if some visible root is missing |
| `BatchSearch.Linear` | bridgeservice/bridge.go:2187-2223 | returns the first covering batch of the block range, and fails in the lookup exactly when it runs past the newest batch |
| `BatchSearch.SearchWithFallback` | bridgeservice/bridge.go:2071-2083 | binary search with fallback answers if and only if the linear scan does, and equally |
| `BatchSearch.FirstForDeposit` | bridgeservice/bridge.go:2030-2089 | the whole L2 search: the first L1 info leaf with the rollup exit root of a batch as good as the linear scan's, and the exact condition for the not-on-L1-info error |
| `L1InfoSearch.Search` | bridgeservice/bridge.go:2000-2027 | terminates; yields a covering leaf of least root index among first-of-block leaves, or the last leaf if none covers; fails with a missing leaf exactly on the wrapping shape |
| `L1InfoSearch.FirstForDeposit` | bridgeservice/bridge.go:1957-2028 | the whole L1 search, both when the last exit root is known and when the search is clamped to the bridge's newest block: exactly when it reports not-on-L1-info, an unprocessed block or a missing leaf, and an unknown root only if one of the leaves that open a block has it or the bridge has no root |
| `L1InfoSearch.AnswerCoversIff` | bridgeservice/bridge.go:2000-2027 | the leaf answered covers the deposit if and only if a leaf the lookups can return does, or the last one searched |
| `L1InfoSearch.ClampedLeafFallsShort` | bridgeservice/bridge.go:1967-1991 | a clamped search that answers with a leaf too old for the deposit |
| `L1InfoSearch.WrapExample` | bridgeservice/bridge.go:2022-2024 | a one-leaf tree in block 0 on which the search wraps although the leaf covers the deposit |
| `SingleFlight.RunKeepsInv` | bridgeservice/bridge.go:1883-1955 | the invariant of cache, channels and callers over every interleaving |
| `SingleFlight.AtMostOneCompute` | bridgeservice/bridge.go:1905-1926 | at most one caller is inside a computation |
| `SingleFlight.ClosedExactlyOnce` | bridgeservice/bridge.go:1937-1949 | no channel is closed twice, and it is open if and only if its maker still has to close it, panic or not |
| `SingleFlight.ReturnsAreRight` | bridgeservice/bridge.go:1905-1955 | a fresh hit is a completed result inside its time to live; a waiter gets a result at least as recent as the one awaited unless that one panicked; a panic is never cached |
| `SingleFlight.ReturnsWhatWasComputed` | bridgeservice/bridge.go:1905-1955 | a returned result carries the entry of an earlier computation of its ticket, stored after it and stamped with the time of storing |
| `SingleFlight.ComputedOnce` | bridgeservice/bridge.go:1922-1955 | no ticket is computed twice, and its owner is who computed it |
| `SingleFlight.OwnResultIsOwn` | bridgeservice/bridge.go:1951-1955 | a caller that returns from its own computation returns what it computed |
| `SingleFlight.EnterDecides` | bridgeservice/bridge.go:1908-1926 | while a stored result is inside its time to live a call returns it and starts nothing; else it waits for the computation in flight, and only without one starts its own |
| `SingleFlight.CallersProceed` | bridgeservice/bridge.go:1905-1955 | every caller can take its next step unless it waits for a channel still open |
| `SingleFlight.NoTtlNoHit` | bridgeservice/bridge.go:1893-1899 | a non-positive time to live never serves from the cache |
| `SingleFlight.NeverWedged` | bridgeservice/bridge.go:1915-1949 | after any run a waiter's channel is closed, or its owner can close it in at most three steps of its own |
| `FinderRuns.BestOfferWins` | bridgeservicefinder/resolver.go:56-110 | the resolved URL is the offer of the best-ranked source that has one, and the JSON-RPC URL is the override or the sequencer's |
| `FinderRuns.UpdateTakesEffect` | bridgeservicefinder/listener.go:649-721 | an announced URL replaces a served one if and only if it is not outranked, the entry is not from configuration, and it does not lose to a healthy one; the JSON-RPC refresh happens regardless |
| `FinderRuns.StepKeepsInv` | bridgeservicefinder/listener.go:319-346 | one log keeps configuration, filter, pending and routing invariants |
| `FinderRuns.StartEstablishesInv` | bridgeservicefinder/bridgeservicefinder.go:240-319 | the start establishes them with nothing pending |
| `FinderRuns.ConfigIsTerminal` | bridgeservicefinder/listener.go:649-721 | after the start and any logs, an overridden network is served with exactly its URL and source, and never shows a chain-announced JSON-RPC URL over an override |
| `FinderRuns.ExcludedStayOut` | bridgeservicefinder/bridgeservicefinder.go:112-121 | excluded networks never enter entries, pending set or routing table |
| `FinderEffects.ListsDecide` | bridgeservicefinder/bridgeservicefinder.go:112-121 | with an allow list only networks on it are ever served, held back or routed to; without one, only those not on the ignore list |
| `FinderEffects.ListsLetThrough` | bridgeservicefinder/listener.go:485-576 | a network the lists let through, attached with a readable URL, is served or held back |
| `FinderRuns.ServedSetIsFrozen` | bridgeservicefinder/listener.go:485-521 | with automatic registration off the served set is that of the start, disjoint from the pending set, and first pending records stay; entries are never removed |
| `FinderRuns.HealthyIsKept` | bridgeservicefinder/listener.go:649-721 | with one contract per rollup, a healthy URL gives way only to one that just probed healthy, and ranks do not worsen without a metadata clear; the exact condition is `FinderExact.GateHoldsIff` |
| `FinderRuns.RankNeverWorsens` | bridgeservicefinder/listener.go:680-695 | the rank statement along whole runs |
| `FinderRuns.SecondContractBreaksTheGate` | bridgeservicefinder/listener.go:523-576 | a concrete run with a second contract that breaks gate and rank |
| `FinderExact.RpcOverrideIsShownIff` | bridgeservicefinder/bridgeservicefinder.go:341-398 | after the start and any logs a served network shows its JSON-RPC override if and only if the start, a discovery or a refresh has installed its entry |
| `FinderExact.GateHoldsIff` | bridgeservicefinder/listener.go:319-576 | one log keeps the health gate if and only if it is not a new contract of a served network whose other URL failed its probe |
| `FinderExact.RankHoldsIff` | bridgeservicefinder/listener.go:319-576 | one log keeps the ranks if and only if neither a new contract nor a metadata clear brings in a lower-ranked answer |
| `FinderExact.RunsHoldIff` | bridgeservicefinder/listener.go:319-576 | both statements for every step of whole runs |
| `FinderExact.UpdateObeys` | bridgeservicefinder/listener.go:649-721 | an announced URL obeys gate and ranks whatever was served before |
| `FinderExact.OthersAreUntouched` | bridgeservicefinder/listener.go:319-346 | a log leaves the entries of all other networks as they are |
| `FinderEffects.LogTakesEffect` | bridgeservicefinder/listener.go:319-721 | what every kind of log changes, entry by entry: URL, JSON-RPC URL, source and health, pending records with their address and block, and routes; any other log changes nothing |
| `FinderEffects.SequencerURLIsShownIff` | bridgeservicefinder/listener.go:340-345 | a sequencer URL of a served network is shown if and only if it was already, or the network is served by its sequencer and a healthy entry does not meet a failed probe; the JSON-RPC URL follows unless overridden |
| `FinderEffects.MetadataURLIsShownIff` | bridgeservicefinder/listener.go:340-345 | the same for a metadata URL, which only configuration outranks |
| `FinderEffects.FirstURLIsKept` | bridgeservicefinder/listener.go:664-680 | a network not served yet is served from its first URL, or held back with the log's address and block |
| `FinderStart.StartIsExpected` | bridgeservicefinder/bridgeservicefinder.go:240-425 | after the start each network shows what its configuration or its rollup says with the health of its probe, each watched contract is routed, and the start aborts if and only if a rollup without an override cannot be read or resolved |
| `FinderRuns.RpcOverrideCanBeMissing` | bridgeservicefinder/listener.go:713-718 | a concrete run after which an override is not shown |
| `Finder.BridgeServiceFinder.constructor` | bridgeservicefinder/cache.go:33-38 | starts empty |
| `Finder.BridgeServiceFinder.SetPending` | bridgeservicefinder/cache.go:75-86 | keeps the first record and says whether this was it |
| `Finder.BridgeServiceFinder.ApplyUpdate` | bridgeservicefinder/listener.go:649-721 | the branch-by-branch update equals the rule and obeys gate and ranks |
| `Finder.BridgeServiceFinder.RefreshFromChain` | bridgeservicefinder/listener.go:370-419 | re-resolution, which obeys the health gate |
| `Finder.BridgeServiceFinder.DiscoverRollup` | bridgeservicefinder/listener.go:485-576 | filter first, then the registration gate, then routing and serving; excluded networks and known contracts change nothing, without automatic registration the served set stays, and a configured entry stays configured |
| `Finder.BridgeServiceFinder.ProcessLog` | bridgeservicefinder/listener.go:319-346 | every log has its effect on the books, the invariants are kept, and gate and ranks exactly when `FinderExact` says |
| `Finder.BridgeServiceFinder.SeedFromConfig` | bridgeservicefinder/bridgeservicefinder.go:278-293 | the loop installs exactly the configured, not excluded networks |
| `Finder.BridgeServiceFinder.ResolveNetwork` | bridgeservicefinder/bridgeservicefinder.go:341-398 | one enumerated rollup, and when the start aborts; a configured network never aborts it and is served as configured, and an entry set here shows its JSON-RPC override |
| `Finder.BridgeServiceFinder.BuildInitialCache` | bridgeservicefinder/bridgeservicefinder.go:278-319 | the enumeration loop leaves the books the rollups and the configuration say, and aborts exactly when one cannot be read or resolved |
| `Finder.BridgeServiceFinder.ProbeAll` | bridgeservicefinder/bridgeservicefinder.go:404-425 | sets every health flag and counts exactly the unreachable ones |
| `Scan.ExactlyOnce` | bridgeservicefinder/listener.go:247-276 | contiguous chunks hold each block after the seed up to their end once and no other block |
| `Scan.Scanner.constructor` | bridgeservicefinder/listener.go:206-210 | seeds the scan with the finalized bound |
| `Scan.Scanner.ScanOnce` | bridgeservicefinder/listener.go:247-276 | processes only chunks whose query succeeded, stops at the first failure, and succeeds only at the bound |
| `Scan.Scanner.Poll` | bridgeservicefinder/listener.go:218-241 | over any ticks every block from the seed to the last scanned one is processed exactly once, in chunks of bounded size, never past a bound seen |
| `LatestValue.RunKeepsInv` | bridgetracker/registry.go:381-401 | the invariant of slots, receipts and the publisher over every interleaving |
| `LatestValue.ReceivedInOrder` | bridgetracker/registry.go:142-165 | each subscriber receives a subsequence of the published snapshots, in order, from when it joined |
| `LatestValue.ActiveIffSubscribed` | bridgetracker/registry.go:142-165 | a subscriber is notified if and only if the run has subscribed it and not unsubscribed it since |
| `LatestValue.NewestIsDelivered` | bridgetracker/registry.go:381-401 | when a notification has returned, whoever subscribed before the newest snapshot and has not unsubscribed holds it or received it last |
| `LatestValue.NothingAfterLeaving` | bridgetracker/registry.go:159-163 | no snapshot published after an unsubscribe ever reaches that subscriber |
| `LatestValue.NobodyIsKeptOut` | bridgetracker/registry.go:142-165 | outside a notification a new channel can subscribe, a known one can leave and a snapshot can be published |
| `LatestValue.NotifyNeverBlocks` | bridgetracker/registry.go:381-401 | inside a notification some operation of the publisher is always enabled |
| `LatestValue.NotifyEnds` | bridgetracker/registry.go:381-401 | each such operation brings the end nearer and nothing a subscriber does puts it off |
| `Committee.ProcessResults` | aggsender/validator_poller.go:215-280 | over any arrival order, succeeds if and only if enough results are good, with the first good ones, and stops reading then |
| `CommitteeRuns.OrderDoesNotMatter` | aggsender/validator_poller.go:149-280 | for every interleaving, success if and only if at least threshold validators return a good signature; exactly threshold entries of different validators for a positive threshold |
| `CommitteeRuns.CancelStopsAsking` | aggsender/validator_poller.go:164-176 | once there are enough signatures nobody new is asked and no signature is added |
| `CommitteeRuns.SendersNeverBlock` | aggsender/validator_poller.go:149-183 | a goroutine holding its reply always finds room in the channel |
| `CommitteeRuns.NeverStuck` | aggsender/validator_poller.go:149-256 | until polling is done some step is enabled |
| `CommitteeRuns.RunsEnd` | aggsender/validator_poller.go:149-256 | every step decreases a measure, so polling ends |
| `Backoff.StopsExactly` | common/retry_backoff_config.go:35-49 | for every configuration, valid or not, exactly when the table loop stops |
| `Backoff.BuildTable` | common/retry_backoff_config.go:35-49 | the loop yields the capped backoffs up to the first above the cap or the number of retries |
| `Backoff.DelayIsClosedForm` | common/retry_handler_delays.go:67-72 | for every valid configuration the delay of attempt k is the floor of min(initial * multiplier^k, max), also past the end of the table |
| `Backoff.DelaysDoNotShrink` | common/retry_handler_delays.go:67-72 | delays never decrease and stay between initial and maximal |
| `Backoff.ValidStops` | common/retry_backoff_config.go:51-82 | a valid configuration always gets its table |
| `Backoff.Execute` | common/retry_handler_delays.go:107-162 | runs until anything but a plain failure or once more than the retries; the verdict is the last run's, and every plain failure is followed by its delay |
| `CallTrace.FindCall` | bridgesync/downloader.go:556-600 | the stack loop finds exactly the visited plain calls to the target the callback says yes to, in the recursive order; fails exactly when the callback fails on such a call |
| `CallTrace.PushLive` | bridgesync/downloader.go:589-594 | pushes exactly the calls that did not revert, in order |
| `CallTrace.VisitedIsExact` | bridgesync/downloader.go:556-600 | the visited frames are those at exactly the paths through frames that did not revert, strictly ordered in preorder with later siblings first |
| `CallTrace.BeforeIsStrict` | bridgesync/downloader.go:556-600 | that order is strict, so no frame is visited twice |
| `GlobalIndex.RoundTrip` | bridgesync/processor.go:1675-1683 | decoding inverts encoding for every network and deposit count |
| `GlobalIndex.EncodingIsInjective` | bridgesync/processor.go:1675-1683 | different networks or deposit counts have different indices |
| `GlobalIndex.DecodeIsArithmetic` | bridgesync/processor.go:1755-1778 | on every non-negative integer the byte slices are bit 64, bits 32 to 63 and bits 0 to 31 |
| `GlobalIndex.GenerateIsArithmetic` | bridgesync/processor.go:1729-1746 | the concatenated bytes are the flag, rollup index and deposit count in their positions |
| `GlobalIndex.BytesToUint32IsValue` | common/common.go:82-90 | padding to four bytes does not change the value |
| `GlobalIndex.BridgeDecodes` | bridgesync/processor.go:1694-1707 | when the index of a bridge, legacy ones included, gives back its network |
| `RangeQuery.ChunkedRangeQuery` | common/block_range.go:235-260 | equals one query over the whole range; fails exactly for a zero chunk size or a failing chunk |
| `RangeQuery.ScanRange` | claimsync/claimsync.go:261-314 | the reverse loop returns the last match of the range |
| `RangeQuery.LastMatchIsHighest` | claimsync/claimsync.go:261-314 | which is the highest matching block of the range |
| `RangeQuery.LatestMatch` | claimsync/claimsync.go:316-355 | returns what one scan of the full range would; fails exactly when the full range is refused and no chunk size is named or a chunk is refused before any has a match |
| `RangeQuery.ChunkedScan` | claimsync/claimsync.go:330-355 | the loop over chunks is the scan down from the last block |
| `RangeQuery.ScanDownIsExact` | claimsync/claimsync.go:330-355 | that scan finds the latest match of everything below, unless it is refused first |
| `RangeQuery.ShortRangesAreEnough` | claimsync/claimsync.go:330-355 | a node that serves every range of the size it named never makes it fail |

## Left out

- Reading and decoding of events, ABI and SQL text: logs arrive decoded, tables are values.
- The other columns and tables of a block (token mappings, legacy tokens, block hashes): plain inserts that cascade with the block.
- BridgeProcessor.Processor.ProcessBlock: the class keeps the exit tree as the list of its leaves, and `BridgeOnTree` says when the tree with its cache does the same; database errors other than the modelled rejections, 64-bit wrap-around of block positions and absent big integers are not modelled.
- BridgeAgreement.RunsFromEmptyAgree: about the list of leaves; `BridgeOnTree.RunsStaySoundIff` has the condition for the tree itself.
- BridgeAgreement.RunsAgree: about the list of leaves, likewise.
- BridgeAgreement.EventAgrees: about the list of leaves, likewise.
- L1InfoSearch.FirstForDeposit: the unknown-root error is bounded from one side; which unknown root a search meets depends on the blocks it happens to probe.
- BridgeOnTree.RunsStaySoundIff: a tree that has gone astray is not followed further; leaf hashes are not zero, and the "only if" half takes the leaves of a failing block to be different, since equal leaves can hide a wrong cache entry.
- BridgeReorgOnTree.ReorgStaysSoundIff: the rows are in order, which `BridgeReorgOnTree.HarmlessStepsAgree` proves over runs; otherwise as the line above.
- L1InfoSearch.Search: block numbers are below half the unsigned range, so that nothing is found after a wrap.
- BatchSearch.FirstForDeposit: the newest verified batch opens its block.
- SingleFlight.ReturnsAreRight: the clock does not run backwards.
- Finder.BridgeServiceFinder.BuildInitialCache: cancellation and the option to require all services healthy only turn a finished start into an error.
- Finder.BridgeServiceFinder.ProcessLog: the list of watched addresses mirrors the routing table and is not kept twice; time stamps of pending records are left out.
- Scan.Scanner.ScanOnce: bounds plus chunk size fit in 64 bits, and the chunk size is at least one, as the configuration defaults ensure.
- The registry around the notification (creation cap, pruning, forgetting): single map updates.
- CommitteeRuns.OrderDoesNotMatter: the caller's context stays live; committee lookup and request validation come before it.
- Backoff.DelayIsClosedForm: exact reals in place of floating point, so rounding is not captured.
- RangeQuery.ChunkedRangeQuery: the end of the range plus the chunk size fits in 64 bits.
- RangeQuery.LatestMatch: the chunk size named by the node is at least one; with zero the scan would not advance.
- Request handlers, metrics, logging, configuration rendering, certificate flows, rate limiting and client wiring.
