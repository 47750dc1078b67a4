# Verification of the blockchain storage engine

A MySQL storage engine keeps each table in a key-value contract on an Ethereum chain. This project
models the three parts that have to agree, and proves that they do, or exactly when they do not:

- **The contracts.** `TableStorage.dfy` has the key-value contract: class `KVStore` with its loops,
  specified by functions on `Store` values. `Serialisability.dfy` has whole runs of one contract under
  any number of transactions, `Transaction.dfy` the contract that commits several stores at once, and
  `ChainRuns.dfy` runs over all contracts of a chain.
- **The engine.** `TxSpec.dfy` says what the calls of a transaction do to its pending operations and its
  read cache, and has the theorems about runs. `TableTx.dfy` is the transaction object with its cache and
  its workers, `Handler.dfy` the handler with its row buffers, `ScanSpec.dfy` a table scan from
  `rnd_init` to `rnd_end`. `SessionSpec.dfy` says what commit and rollback mean over all tables of a
  session, with the theorems about them; `Session.dfy` has the loops that do it, and `SessionRuns.dfy` whole
  sessions from the first use of a table to the commit or the rollback.
- **The wire.** `Hex.dfy`, `Abi.dfy`, `Ethereum.dfy` and `EthereumScan.dfy` have the hand-written encoders
  and decoders next to a decoder that follows the Solidity Contract ABI Specification (sections "Formal
  Specification of the Encoding" and "Use of Dynamic Types"); `Nonce.dfy` has the shared nonce counter.

`TableSpec.dfy` is the common ground: `Replay` runs writes one by one, `Overlay` says outright what a table
with pending puts and removes looks like. `EndToEnd.dfy` joins the parts: pending operations go out as call
data, the contract stages and commits them, and a scan reads back the overlay byte for byte.

How things are modelled:

- A call to the chain has an outcome `Rpc(applied, reported)`. All four combinations occur: a confirmation
  that times out is applied but not reported, and a transaction that is mined and reverts is reported but
  not applied, because the connector only looks for a block number (connector_impl/ethereum.cpp:447).
  `Honest` excludes the last one. Outcomes are universally quantified.
- The cache is a sequence of rows in iteration order. Overwriting keeps the order; inserting and erasing
  may change it in any way.
- A worker thread is an operation that has not finished. Workers finish in any order.
- An EVM revert restores the storage. Reading past the end of an array reverts.
- `bc_commit` and `bc_rollback` visit the tables in any order. Each table's address leads to its own
  contract. Other sessions make any calls between the prepares and before the commit call; the results are
  relative to the chain as they left it, because their calls may change places with the prepares
  (`OthersCommuteWithPrepares`).
- A connector looks at the nonce counter, asks the node and stores a seed in separate steps. It keeps other
  connectors out meanwhile, but not senders. A nonce of zero is left out of the request, and
  the node uses the first one that is free.
- The session's slots own their transaction objects, so a slot holds the object's whole state as a value,
  and each step moves it into a `TableTx` object and back.

## What the proofs found

- **Deleting a row and inserting it again loses the row.** The session sees it in its live cache, but a
  commit stages all puts before all removes, and `reapply_pending_operations` works in that order too.
  Reapplying drops exactly the keys in `Revived`, and a commit differs from the live cache by exactly
  those (`ReinsertedRowIsLost`, `ReapplyFixpointIff`, `CommitMatchesLiveCache`, `IndexReadAgreesIff`).
- **A row that was deleted and inserted again can vanish within the transaction.** An index read of another
  row that has to fetch it reapplies the pending operations, and the session no longer sees the new row
  (`RevivedRowVanishes`). A cached value is repeatable exactly if no remove of its key is recorded or waiting
  (`RepeatableReadIff`).
- **A filled cache does not keep phantoms out.** An index read of a key that another session has committed
  since fetches and shows it (`PhantomAppears`). A key stays away exactly if the transaction itself has removed
  it (`NoPhantomsIff`).
- **A scan can skip or repeat a row when a new key comes into the cache**, for some iteration order, exactly if
  some row was returned before, and for a skip some row was not (`InsertRepeatsIff`, `InsertSkipsIff`).
- **Commit is all or nothing only if prepare calls are honest.** If the prepare calls of one table are mined
  and revert, the connector reports success and the commit applies to the other tables only (`TornCommit`
  has such a session, `RevertedPrepareTearsCommit` the family). The exact condition, on what the prepares
  lost and what they staged, is in `AllOrNothingIff`, and in terms of the order of arrival in
  `AllOrNothingByArrivalIff`.
- **A transaction that wrote to ten tables or more never takes effect.** The length of the address list goes
  out in decimal and is read in hex, so the contract always reverts, and the commit may still return 0
  (`CommitAllDecodes`, `TenTablesNeverCommit`).
- **A commit call that fails leaves its staging behind.** The slots are empty by then, so no rollback cleans
  the buffers. If cleanup calls take effect, staging is left behind exactly when the commit call failed and
  something was staged, which with honest calls is always so (`StagingAfterFailedCommit`, `CommitOrRollBack`).
- **Immediate mode depends on arrival order** exactly when two different operations touch one key
  (`ArrivalOrderIrrelevantIff`).
- **Index reads are repeatable exactly if the key was not deleted before.** A cached row is answered from the
  cache, whatever the chain has by then (`IndexReadAnswers`, `RepeatableIndexReadsIff`).
- **A scan without a transaction that is begun again before it ended returns its rows twice**
  (`AutoCommitScan`).
- **Without the cache, an index read misses a pending put** of a key that is not on the chain
  (`UncachedIndexReadAgreesIff`).
- **A second connector can set the nonce counter back.** It finds the counter at zero, and a sender takes a
  nonce before the count that the node reports is stored: the nonce goes out twice
  (`SecondConnectorRepeats`). With the nonces that the node chooses for requests without one, all stay distinct
  exactly if no connector stores a count that does not exceed the counter; before the first nonce, exactly
  if none stores a count of zero while the node has pending transactions (`NoncesDistinctIff`).
- **A scan reads no row at all** when its count plus 3 does not fit 32 bits (`ScanTable`).

## Model

| member | source | states |
|---|---|---|
| TableStorage.KVStore.Put | eth_contracts/TableStorage.sol:28-41 | a put appends the key to the key list only if its block number is zero, and stores value and block; nothing else changes |
| TableStorage.KVStore.StagePut | eth_contracts/TableStorage.sol:43-51 | a staged put only appends to the buffer of its id |
| TableStorage.KVStore.Clean | eth_contracts/TableStorage.sol:53-58 | a clean empties the buffer of its id, and nothing else |
| TableStorage.KVStore.Commit | eth_contracts/TableStorage.sol:60-75 | the loop replays the buffer in order under the current block and empties it |
| TableStorage.KVStore.PutBatch | eth_contracts/TableStorage.sol:82-96 | the loop equals the puts one by one; with fewer values than keys it reverts without a trace |
| TableStorage.KVStore.StagePutBatch | eth_contracts/TableStorage.sol:98-108 | stages the puts in order, or reverts without a trace |
| TableStorage.KVStore.Remove | eth_contracts/TableStorage.sol:110-135 | search, swap and pop: the last key takes the place of the first occurrence, an unknown key changes nothing |
| TableStorage.KVStore.StageRemove | eth_contracts/TableStorage.sol:137-144 | a staged remove only appends to the buffer of its id |
| TableStorage.KVStore.RemoveBatch | eth_contracts/TableStorage.sol:148-155 | the loop equals the removes one by one |
| TableStorage.KVStore.StageRemoveBatch | eth_contracts/TableStorage.sol:157-166 | stages the removes in order |
| TableStorage.KVStore.TableScan | eth_contracts/TableStorage.sol:168-183 | under the store invariant the scan lists each row of the table exactly once |
| TableStorage.KVStore.Get | eth_contracts/TableStorage.sol:196-210 | reverts exactly for keys that are not in the table, and else returns the value and its block |
| TableStorage.SwapAndPopRemovesOne | eth_contracts/TableStorage.sol:130-131 | swap and pop take one occurrence of the key out and permute the rest |
| TableStorage.SwapAndPopMembers | eth_contracts/TableStorage.sol:130-131 | a duplicate-free key list stays so and loses exactly the removed key |
| TableStorage.SwapAndPopPlaces | eth_contracts/TableStorage.sol:130-131 | the last key takes the place of the removed one, and every other key stays where it is |
| TableStorage.RemoveKeepsValid | eth_contracts/TableStorage.sol:110-135 | a remove keeps the store invariant and deletes exactly its key's entry |
| TableStorage.PutKeepsValid | eth_contracts/TableStorage.sol:28-41 | a put keeps the store invariant |
| TableStorage.StoreReplayMeaning | eth_contracts/TableStorage.sol:66-72 | any operations keep the invariant and change the data exactly as they, stamped with the block, say |
| TableStorage.StoreReplayView | eth_contracts/TableStorage.sol:66-72 | readers see the operations applied in order |
| TableStorage.CommitMeaning | eth_contracts/TableStorage.sol:60-75 | a commit keeps the invariant, shows the staged operations, and empties its own buffer and no other |
| Serialisability.BuffersHoldStaged | eth_contracts/TableStorage.sol:49-50 | after any run a buffer holds what its id staged since it last cleaned or committed, in arrival order |
| Serialisability.RunsKeepValid | eth_contracts/TableStorage.sol:28-166 | the store invariant holds after every run |
| Serialisability.Serialisable | eth_contracts/TableStorage.sol:43-75 | every interleaving leaves the data and key list of the serial run with each transaction in one piece at its commit |
| Serialisability.StoredEntryIsLastWrite | eth_contracts/TableStorage.sol:33-40 | the key list is duplicate-free and lists the stored keys; value and block number are those of the last committed write to the key, a put |
| Serialisability.UncommittedIsInvisible | eth_contracts/TableStorage.sol:43-58 | taking out every step of an id that never commits changes neither data nor key list |
| ChainRuns.ChainSerialisable | eth_contracts/Transaction.sol:5-15 | runs over all contracts: every one ends with the data and key list of the serial run in which each transaction's writes to all its tables are one step at its commit |
| ChainRuns.NoTransactionInPart | eth_contracts/Transaction.sol:5-15 | at every moment of a run all tables together are those after some of the serial writes, none of them in part |
| Transaction.CommitAll | eth_contracts/Transaction.sol:5-15 | commits the id once in every listed store, or leaves all stores as they were if an address has no contract |
| Transaction.CommitTwice | eth_contracts/TableStorage.sol:60-75 | a second commit of an id changes nothing |
| Transaction.CommitEachAt | eth_contracts/Transaction.sol:10-13 | the loop commits exactly the listed stores, each once |
| Transaction.CommitAllOrderAndRepetition | eth_contracts/Transaction.sol:10-13 | lists naming the same stores have the same effect, in any order and with any repetition |
| TableSpec.BatchCommitIsOverlay | ha_blockchain.cc:1003-1015 | running all puts and then all removes yields the overlay, for every history |
| TableSpec.PartialBatchIff | ha_blockchain.cc:1003-1015 | with some calls of a batch not applied, the result is the overlay exactly if the missing ones would have changed nothing |
| TableSpec.OverlayIdempotent | blockchain_table_tx.cpp:92-100 | laying the same operations over a table twice is laying them over once |
| TableSpec.ConflictFreeOrderIndependent | eth_contracts/TableStorage.sol:66-72 | operations without conflicts commit to the same table in every arrival order |
| TableSpec.ConflictShowsInOrder | eth_contracts/TableStorage.sol:66-72 | two different operations on one key give two arrival orders with different tables |
| TableSpec.ArrivalOrderIrrelevantIff | blockchain_table_tx.cpp:36-48 | every arrival order of the workers yields the overlay if and only if no two different operations touch one key |
| TableSpec.PartialDeliveryIff | blockchain_table_tx.cpp:36-74 | if only some of the workers' operations arrive, in any order, the table is the complete one if and only if each missing one would have changed nothing; for operations without conflicts |
| TableSpec.ArrivalIff | eth_contracts/TableStorage.sol:66-72 | with conflicts and losses, an arrival gives the complete table, or the old one, if and only if the last operation to arrive at each key does what the last one issued does, or leaves the key as it is |
| TableSpec.OverlayIsIdentityIff | ha_blockchain.cc:1003-1015 | a batch changes nothing if and only if its puts write what is there and its removes find nothing |
| TxSpec.FlagsFollowSteps | ha_blockchain.cc:579-613 | in every run the cache counts as filled if and only if the table was scanned, and deletes are deferred if and only if a scan has begun and not ended |
| TxSpec.NothingWaitsOutsideScans | ha_blockchain.cc:610-613 | in every run no delete waits outside a scan |
| TxSpec.RunsRecordSteps | blockchain_table_tx.cpp:36-74 | the pending operations are the writes and deletes of the run in order; only the deletes of a scan that has not ended wait |
| TxSpec.CommitIsOverlayOfSteps | ha_blockchain.cc:1003-1015 | outside a scan a commit leaves the table with the run's writes and then its deletes laid over it |
| TxSpec.DeleteTakesEffect | blockchain_table_tx.cpp:54-73 | a delete outside a scan, or without any scan, is recorded and its row gone at once; in a scan it waits and changes nothing else |
| TxSpec.ScanEndIssuesDeletes | blockchain_table_tx.cpp:102-109 | at the end of a scan all deletes of the run are recorded, the rows of those that waited are gone, and no other row changes |
| TxSpec.ReapplyDropsRemovedKeys | blockchain_table_tx.cpp:92-100 | in every reachable state reapplying takes out of the live cache exactly the keys in remove_operations |
| TxSpec.RevivedAreCachedRemoved | blockchain_table_tx.cpp:84-90 | the keys put again after their remove took effect are the removed keys that the cache shows |
| TxSpec.ReapplyFixpointIff | blockchain_table_tx.cpp:92-100 | reapplying changes nothing if and only if no removed key has come back since |
| TxSpec.ReapplyIdempotent | blockchain_table_tx.cpp:92-100 | reapplying twice is reapplying once |
| TxSpec.CommitMatchesFreshScan | ha_blockchain.cc:584-593 | a scan into an empty cache, which without the cache is every scan, shows what committing the batch produces, for every history |
| TxSpec.CommitMatchesLiveCache | ha_blockchain.cc:1003-1015 | with no other commit in between, and once the table was scanned, the committed table is the live cache without exactly the revived keys |
| TxSpec.ReinsertedRowIsLost | blockchain_table_tx.cpp:50-51 | in every run, deleting a row outside a scan and inserting it again shows the row and commits without it |
| TxSpec.IssuedPermutesBatch | blockchain_table_tx.cpp:36-74 | in every run the operations issued, deferred deletes at the end of their scan, are a permutation of the pending puts and removes |
| TxSpec.CommitInIssueOrder | eth_contracts/TableStorage.sol:66-72 | with no other commit in between, operations that arrive in the order of issue commit exactly what the cache of a scanned table shows, rows put again included, and those of them that a reapply has dropped |
| TxSpec.FirstScanShows | ha_blockchain.cc:589-593 | the first scan of a table shows the chain's rows under those that are cached, without the deleted ones |
| TxSpec.LaterScanKeepsCache | ha_blockchain.cc:589-593 | once the table was scanned, a scan leaves the cache as it is, whatever the chain has by then |
| TxSpec.IndexReadAnswers | ha_blockchain.cc:519-546 | in every run and on every chain an index read answers the cached value if there is one and leaves everything as it is; a removed key is not found, and any other key is read from the chain |
| TxSpec.RepeatableIndexReadsIff | ha_blockchain.cc:519-546 | once an index read has returned a row, all later ones return the same, whatever others commit and without own writes to the key in between, if and only if no delete of the key came before |
| TxSpec.OwnWriteIsRead | blockchain_table_tx.cpp:84-86 | index reads return a row that the transaction wrote and never deleted, whatever happens in between |
| TxSpec.OwnDeleteIsSeen | blockchain_table_tx.cpp:88-90 | index reads do not return a row that the transaction deleted outside a scan, until it writes the row again |
| TxSpec.IndexReadAgreesIff | ha_blockchain.cc:519-546 | with the cache and no other commit in between, an index read agrees with the overlay if and only if the key was not revived |
| TxSpec.UncachedIndexReadAgreesIff | ha_blockchain.cc:519-550 | without the cache it agrees unless only a pending put provides the key |
| TxSpec.RepeatableRead | connector_impl/ethereum.cpp:391-392 | a cached value survives commits by others, scans and reads until the transaction itself writes or deletes the key |
| TxSpec.RepeatableReadIff | blockchain_table_tx.h:38-42 | a cached value stays in all runs without own writes to its key if and only if no remove of the key is recorded or waiting |
| TxSpec.RevivedRowVanishes | ha_blockchain.cc:519-531 | an index read that fetches some other row takes every row that was deleted and inserted again out of the session's cache |
| TxSpec.NoPhantoms | blockchain_table_tx.h:38-42 | in every run that has scanned the table, as long as index reads need not fetch, a key appears, disappears or changes only by the transaction's own writes |
| TxSpec.PhantomAppears | ha_blockchain.cc:519-531 | in any run an index read of a key that is neither cached nor removed, but on the chain by now, brings its row into the cache, filled or not |
| TxSpec.NoPhantomsIff | blockchain_table_tx.h:38-42 | a key that is not cached stays away in all runs without own writes to it, whatever others commit, if and only if the transaction has removed it |
| TableTx.TableTx.constructor | blockchain_table_tx.cpp:3-26 | a new transaction has no operations, no workers, an empty cache and the given id, and no worker of it has failed |
| TableTx.TableTx.AddPut | blockchain_table_tx.cpp:36-52 | records the put, shows it in the cache and starts one worker in immediate mode; overwriting keeps the iteration order |
| TableTx.TableTx.AddRemove | blockchain_table_tx.cpp:54-74 | records the remove, or defers it during a scan, which leaves cache and workers alone |
| TableTx.TableTx.ReapplyPendingOperations | blockchain_table_tx.cpp:92-100 | the two loops lay the pending operations over the cache |
| TableTx.TableTx.ApplyPendingRemoveOps | blockchain_table_tx.cpp:102-109 | draining the queue issues each deferred remove in order and empties the queue |
| TableTx.TableTx.RunWorker | blockchain_table_tx.cpp:39-46 | one worker stages its operation if its call takes effect, and a failure is remembered |
| TableTx.TableTx.WaitForCommitPrepareWorkers | blockchain_table_tx.cpp:124-130 | joins all workers in any order; what arrives is a permutation of the operations whose calls take effect, and it succeeds exactly if all calls, earlier ones included, returned 0 |
| TableTx.JoinedMeansDelivered | blockchain_table_tx.cpp:124-130 | after a successful join with honest calls the buffer got the issued operations as a multiset |
| TableTx.OnlyIssuedDelivered | blockchain_table_tx.cpp:36-74 | no operation is staged more often than it was issued |
| TableTx.ReadOnlyMeansNoOperations | blockchain_table_tx.cpp:132-138 | there are as many workers as operations, so both tests for a read-only transaction agree |
| TableTx.TableTx.Emplace | connector_impl/ethereum.cpp:382-393 | scanned rows enter the cache only for keys that are not cached |
| Handler.HaBlockchain.WriteRow | ha_blockchain.cc:292-317 | a row becomes a pending put, or goes to the contract in auto-commit mode; in a scan it updates the row in place |
| Handler.HaBlockchain.UpdateRow | ha_blockchain.cc:342-359 | a changed key is refused without effect; else the row is written |
| Handler.HaBlockchain.DeleteRow | ha_blockchain.cc:381-406 | the row's key becomes a remove: recorded at once, with its row gone, or deferred in a scan so that no row moves |
| Handler.HaBlockchain.RndInit | ha_blockchain.cc:572-601 | puts the position before the first row and fills the cache with the overlay of the scanned rows; with the cache in use, one that was filled before stays row by row as it is |
| Handler.HaBlockchain.RndEnd | ha_blockchain.cc:603-621 | issues the deferred deletes, so that none waits and later ones are not deferred, and drops what a scan without the cache has read |
| Handler.HaBlockchain.RndNext | ha_blockchain.cc:638-643 | moves on and returns the row there byte for byte, or the end of the file |
| Handler.HaBlockchain.FindRow | ha_blockchain.cc:1105-1138 | fills the buffer with null bytes, key and value of the row at the offset, or reports the end of the file |
| Handler.HaBlockchain.IndexRead | ha_blockchain.cc:478-556 | refuses inexact reads; else the buffer has the row that the lookup finds, or zeros; with the cache in use a cached key gives the cached row and changes nothing |
| Handler.HaBlockchain.RowComesBack | ha_blockchain.cc:1154-1169 | a row is its null bytes, key and value in this order, and comes back byte for byte after the null bytes |
| ScanSpec.ScanKeepsOrder | blockchain_table_tx.h:13-19 | updates in place and deferred deletes move no row |
| ScanSpec.ScanShowsUpdates | ha_blockchain.cc:342-359 | at any moment the scanned rows are the original ones with the updates so far laid over them |
| ScanSpec.NextReturnsRow | ha_blockchain.cc:638-643 | the n-th rnd_next returns the n-th row with its current value, then the end of the file |
| ScanSpec.EachKeyOnce | ha_blockchain.cc:1105-1127 | no key is returned twice, and all are returned once the end is reached |
| ScanSpec.ScanEnds | ha_blockchain.cc:610-618 | after rnd_end exactly the deleted keys are gone and the others have their last value |
| ScanSpec.InsertRepeatsIff | blockchain_table_tx.h:13-19 | when a new key comes into the cache during a scan, some iteration order returns a row twice if and only if a row was returned before |
| ScanSpec.InsertSkipsIff | blockchain_table_tx.h:13-19 | some iteration order leaves a row out if and only if some row was returned before and some not |
| ScanSpec.UncachedReadEndsScan | ha_blockchain.cc:548-550 | without the cache an index read that finds its row ends a scan |
| Handler.HaBlockchain.TableScan | ha_blockchain.cc:572-643 | a whole scan through the handler: rnd_next returns the rows of the overlay, no key twice and all by the end, each byte for byte as it is then; after rnd_end the updates show and exactly the deleted rows are gone |
| Handler.HaBlockchain.AutoCommitScan | ha_blockchain.cc:594-608 | a whole scan without a transaction: rnd_next returns the rows of the scan call in order, byte for byte, after those of a scan that was begun and not ended; rnd_end empties the buffer |
| Session.Session.StartTransaction | ha_blockchain.cc:942-967 | the first use of a table opens a transaction under the id of those that exist; every live transaction of the session carries one id, which is not nil |
| Session.Session.AddPut | blockchain_table_tx.cpp:36-52 | a put changes one table's transaction, starts a worker in immediate mode, and keeps the session consistent |
| Session.Session.AddRemove | blockchain_table_tx.cpp:54-74 | a remove changes one table's transaction, starts a worker in immediate mode unless it is deferred, and keeps the session consistent |
| Session.Session.ApplyPendingRemoves | ha_blockchain.cc:610-613 | the end of a scan changes one table's transaction and keeps the session consistent |
| Session.Session.RunWorker | blockchain_table_tx.cpp:39-46 | a worker that finishes at any time stages its operation under the session's id if its call takes effect; readers of all tables notice nothing |
| Session.PrepareTable | ha_blockchain.cc:996-1016 | waits for the workers or sends the batches; reports success exactly if all calls returned 0, and then has staged all operations if calls are honest; it never stages one that was not issued |
| Session.Session.BcCommit | ha_blockchain.cc:969-1056 | how a commit ends, its return code, the chain, the slots and the rollback request, for every vector of outcomes, any order of tables and any calls of others in between |
| Session.Session.BcRollback | ha_blockchain.cc:1058-1081 | empties all slots, changes no table, and cleans up in immediate mode |
| Session.Session.CommitOrRollBack | ha_blockchain.cc:1018-1032 | a commit and the rollback it may request leave no slot and no change unless committed; if cleanup calls take effect, staging is left behind exactly if the commit call failed and something was staged |
| SessionRuns.CommitSession | ha_blockchain.cc:942-1056 | a whole session in either mode, from its steps and the outcomes of its calls alone: 122 and a rollback request if and only if a call it needs was not reported, else 0 if it wrote nothing or the commit call was reported, else 1; a commit that takes effect shows in each written table its puts and removes if the calls for it took effect, and nothing if they reverted, and leaves the others, no slot and no staging; any other commit shows nothing |
| SessionRuns.RollBackSession | ha_blockchain.cc:1058-1081 | a session rolled back after any steps leaves every table as it was, no transaction, and nothing staged if in immediate mode the cleanup calls take effect |
| Session.AtomicCommit | connector_impl/ethereum.cpp:569-604 | the contracts at the decoded addresses commit the decoded id if the call takes effect and lists at most nine, and else nothing changes; the return code tells only what was reported |
| SessionSpec.AllOrNothing | ha_blockchain.cc:969-1056 | with honest prepare calls a commit that took effect shows all operations in every affected table and touches no other, and any other commit changes no table |
| SessionSpec.AllOrNothingIff | ha_blockchain.cc:969-1056 | with or without honest calls, in both modes: from the slots and the outcomes of the calls alone, a commit that took effect is all or nothing if and only if no affected table lost an operation that matters, or none staged one; in immediate mode for operations without conflicts |
| SessionSpec.AllOrNothingByArrivalIff | ha_blockchain.cc:969-1056 | with conflicting operations too: all or nothing if and only if in each affected table the last operation to arrive at each key does what the last one of the batch does, or in each leaves the key as it is |
| SessionSpec.CommitShowsSlotCache | ha_blockchain.cc:996-1016 | after a commit with honest prepares a table that was scanned is its slot's cache without the revived keys in batch mode, and in immediate mode, if operations arrive in the order of issue, the cache and the rows that a reapply dropped from it |
| SessionSpec.CommitShowsOverlayIff | connector_impl/ethereum.cpp:444-452 | in both modes a committed table shows its overlay if and only if what its prepare lost would have changed nothing, and is as it was if and only if what was staged changes nothing |
| SessionSpec.RevertedPrepareTearsCommit | connector_impl/ethereum.cpp:444-452 | prepare calls that were mined and reverted make a commit change one table, which shows its overlay, and leave another unchanged, which does not |
| Session.TornCommit | ha_blockchain.cc:1002-1016 | a session with one put in each of two tables whose commit returns 0 and leaves only one of them with its row |
| SessionSpec.TenTablesNeverCommit | connector_impl/ethereum.cpp:580 | a commit of ten tables or more changes no table, and returns 0 if all its calls do |
| SessionSpec.ConflictFreeShowsOverlay | ha_blockchain.cc:998-1000 | in immediate mode without conflicts the committed table is the overlay, as in batch mode |
| SessionSpec.NoStagingAfterCommit | ha_blockchain.cc:979-990 | after a commit all slots and all buffers of the id are empty |
| SessionSpec.StagingAfterFailedCommit | ha_blockchain.cc:1046-1055 | after a failed commit call the slots are empty; the buffers are empty if and only if no prepare call and no worker took effect, and never with honest calls |
| SessionSpec.ConsistentAfterFailedPrepare | ha_blockchain.cc:1018-1031 | after a failed prepare that cleans up, the buffers hold what the tables not yet looked at have delivered, and nothing else |
| SessionSpec.ConsistentAfterCommit | ha_blockchain.cc:969-1056 | a commit leaves a session that satisfies its invariant |
| SessionSpec.NoStagingAfterRollback | ha_blockchain.cc:1065-1078 | after a rollback all buffers of the id are empty |
| SessionSpec.OthersKeepConsistent | eth_contracts/TableStorage.sol:43-75 | any contract calls of other sessions, at any time, keep a session consistent: buffers under its id still hold what it delivered |
| SessionSpec.OthersCommuteWithPrepares | eth_contracts/TableStorage.sol:43-58 | calls of others between the prepares of a commit leave the chain that they leave before the first one |
| Hex.NumeralRoundTrip | connector_impl/ethereum.cpp:47-54 | a hex numeral reads back as its number |
| Hex.DecimalReadAsHex | connector_impl/ethereum.cpp:580 | a decimal numeral read as hex is right below ten and at least six too big from ten on |
| Hex.HexOfRoundTrip | connector_impl/ethereum.cpp:32-45 | the hex text of bytes reads back byte for byte |
| Ethereum.ByteArrayToHex | connector_impl/ethereum.cpp:32-45 | writes the bytes padded on the right to one 32-byte word |
| Ethereum.OnlyNilIsNil | connector_impl/ethereum.cpp:221-230 | the test for a call without a transaction succeeds for the id of 16 zero bytes only |
| Ethereum.PrefixIsNoDigit | connector_impl/ethereum.cpp:581-587 | an address reads as the number of its digits, with or without "0x" |
| Ethereum.TwoArraysDecode | connector_impl/ethereum.cpp:221-246 | the written offsets lead a decoder to both arrays, with and without an id |
| Ethereum.PutBatchPayload | connector_impl/ethereum.cpp:217-246 | a decoder reads back exactly the keys, the values and the id, or a direct call for the id of zeros |
| Ethereum.RemoveBatchPayload | connector_impl/ethereum.cpp:302-321 | a decoder reads back exactly the keys and the id, or a direct call for the id of zeros |
| Ethereum.CommitAllPayload | connector_impl/ethereum.cpp:575-588 | the written text is the id, the offset, the count in decimal and one word for each address |
| Ethereum.CommitAllDecodes | connector_impl/ethereum.cpp:578-588 | up to nine stores a decoder reads back the id and the addresses; from ten on the count is wrong and decoding fails |
| EthereumScan.Split | connector_impl/ethereum.cpp:56-71 | the pieces join to the text; all but the last have full length and the last is not empty |
| EthereumScan.WordsSplitOneWay | connector_impl/ethereum.cpp:56-71 | text made of words has only its words as such pieces |
| EthereumScan.Parse32ByteHexString | connector_impl/ethereum.cpp:17-30 | writes what `strtoul` makes of each two characters into the buffer and nothing else |
| EthereumScan.ParseByteIsStrtoul | connector_impl/ethereum.cpp:17-30 | each byte read is what `strtoul` to base 16 gives for any two characters, white space, signs and prefix included, cut to 8 bits |
| EthereumScan.HexParses | connector_impl/ethereum.cpp:17-30 | hex text parses to the bytes it stands for |
| EthereumScan.ScanWordsAreAbi | eth_contracts/TableStorage.sol:168-183 | the words that the scan reads are the encoding of the two returned arrays |
| EthereumScan.TableScanRows | connector_impl/ethereum.cpp:346-427 | row i comes from words 3 + i and 4 + count + i, with the count as a stream reads it; a count that wraps around 32 bits gives no rows; a response that is cut short is found out exactly |
| EthereumScan.HexNumberReads | connector_impl/ethereum.cpp:416-427 | a stream reads hex digits as their number, or the largest one that fits 32 bits |
| EthereumScan.ScanTable | connector_impl/ethereum.cpp:371-427 | scanning recovers every row in order while 3 + count fits 32 bits, and none from then on |
| EthereumScan.PaddedRowsComeBack | connector_impl/ethereum.cpp:32-45 | rows of up to 32-byte keys and values come back from a scan byte for byte |
| EndToEnd.SendBatch | ha_blockchain.cc:1003-1015 | the batch calls, encoded and decoded, stage the padded operations in order |
| EndToEnd.CommitThenScan | ha_blockchain.cc:1003-1015 | staging, committing and scanning over the wire returns exactly the table with the pending operations laid over it |
| Nonce.NonceCounter.LookAt | connector_impl/ethereum.cpp:118-119 | a connector takes the lock, and keeps it if it finds the counter at zero |
| Nonce.NonceCounter.Seed | connector_impl/ethereum.cpp:126-135 | stores the count minus one, whatever the counter is by then, so that the next nonce is the count; an unreadable answer stores nothing |
| Nonce.NonceCounter.Call | connector_impl/ethereum.cpp:470-493 | whatever nonces below a limit the node rejects at each try, and with other senders in between, the retry ends; the nonces tried increase, and the last is the first one that is not rejected |
| Nonce.NoncesIncrease | connector_impl/ethereum.cpp:477 | in any interleaving of connectors and senders in which no seed sets the counter back, the nonces used increase, the node's choices included |
| Nonce.StaleSeedRepeats | connector_impl/ethereum.cpp:119-132 | after a seed that sets the counter back one of the next senders uses a nonce again |
| Nonce.NoncesDistinctIff | connector_impl/ethereum.cpp:119-132 | at every moment the nonces used, and those of the next senders, are pairwise distinct if and only if every count stored exceeds the counter, or is stored before the first nonce and not zero while the node has pending transactions |
| Nonce.SecondConnectorRepeats | connector_impl/ethereum.cpp:119-132 | a run in which nonce 1 goes out twice although no count is zero |
| Nonce.FirstNonceIsCount | connector_impl/ethereum.cpp:129-132 | in every run the counter moves to the transaction count right after a seed, zero by wrap-around included; a count of zero leaves the choice to the node |

## Left out

- HTTP, JSON, regular expressions, logging and the polling for a mined transaction: I/O; a call is an outcome that the proofs quantify over.
- MySQL plumbing: handler registration, system variables, lock and index stubs, `info`, `records_in_range`.
- Real threads and mutexes: workers finish one at a time, in any order, at any time until they are joined.
- Function selectors, gas and deployment: constants; running out of gas is one reason for a call not to apply.
- `drop`, `drop_table`, `getFirstTxOp` and `getBatch`: stubs, debugging aids and one more loop of `get`; a single put, remove or get call's data is one or two words of the kind proved here.
- `parse_eth_contract_config` and `parse_params_to_json`: plain string handling.
- A table alias other than the table's name, and settings that change while a transaction runs.
- Random ids and hashing: ids are fresh and not nil, keys are compared by content.
- Key lists of 2^256 - 1 entries, where the search's "not found" mark is an index.
- Fields longer than 255 bytes, whose length the source truncates to 8 bits in places, and keys and values over 32 bytes, which the source asserts away.
- Session.Session.BcCommit: stages and commits `Store` values, which `KVStore` is proved to implement, and not encoded call data; `EndToEnd` has the same path through the encoders for one table. Slots are values, so that a transaction object shared with a running handler is not modelled. Calls of others between the cleanup calls of a failed prepare are taken to come before the first of them.
- Session.Session.StartTransaction: requires of the id of a session's first transaction that it is not nil and has nothing staged under it, which a random id gives.
- SessionRuns.CommitSession: its steps have no scans and reads, which change no pending operation (`TxSpec.RunsRecordSteps`); tables of which only some calls take effect, and conflicts in immediate mode, are in `AllOrNothingIff` and `AllOrNothingByArrivalIff`.
- Handler.HaBlockchain.RndInit: the rows that the scan call returned are a parameter; a call that failed returns none, and the cache counts as filled all the same, as in the source.
- ScanSpec.NextReturnsRow: scans in which rows are updated and deleted but not inserted; what an insert can do is in `InsertRepeatsIff` and `InsertSkipsIff`.
- SessionSpec.AllOrNothingIff: in immediate mode requires that no two different operations of a transaction touch one key of a table; with conflicts the order of arrival decides (`AllOrNothingByArrivalIff`).
- EthereumScan.TableScanRows: a response that is cut short gives no result, where the source reads past the end of a vector or a string. `table_scan_to_vec` and `table_scan_to_map` share this one decoding loop.
- Nonce.NonceCounter.Call: no connector seeds the counter while a sender retries; seeds between sends are in the run lemmas, where each try is a send.
- Nonce.NoncesDistinctIff: counts and runs below the wrap-around of 64 bits; transactions that other processes send for the account are not among those compared.
