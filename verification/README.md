# A verified model of the BLQ node

BLQ is a proof-of-work chain node. This project models the parts of it that
decide what the chain is and that must survive a crash, and proves what they
promise.

- **Storage.** `Keys` spells the database keys. `ChainTables` defines the rows a
  block contributes and what replacing a chain suffix does to them.
  `BatchBuilder` holds the loops that assemble rows and batches. `Publication`
  is the journalled replacement of a suffix and its recovery, `Storage` the node
  whose methods carry them out, `Generations` the directories and the pointer to
  the active one. `LogIndex`, `Pruning` and `RecoverySpool` are the derived
  indexes. `StateReaders` and `Lookups` are what readers find in the rows.
  `PublicationRules`, `GenerationRules` and `SpoolRules` say file by file and row
  by row what the protocols accept and leave behind. `RowWrites` takes insertion
  and pruning apart into single row writes.
  `NodeRuns` puts insertions, publications, crashes, restarts and prunings
  together into runs of a node, `LinkedRuns` follows the chain through them.
- **Consensus.** `TargetArithmetic` and `Difficulty` are the 256-bit target
  arithmetic and the V2 controller. `Consensus` is block validation, base fee and
  issuance, `BlockRules` and `FeeRules` what validation and the fee rule mean.
  `ForkChoice` is work and the order on branch tips. `Miner` seals templates.
- **Encodings.** `Canonical` is the canonical bytes of headers, logs, receipts,
  transactions and blocks, `Rlp` the EIP-1559 wire form.
- **Queues.** `Mempool` is the fee-ordered pool and block filling, `MempoolRules`
  what it admits and drops, `TokenBucket` the gateway's rate limiter.

A crash is a machine that stops between two durable writes. A write is one file
replaced by rename, one file or directory removed or renamed, one database row or
one database batch; each happens wholly or not at all. Objects that take part in a
crash have a `power` field, the number of writes that still complete. Their
contracts say what is on disk for every value of it.

Hash functions (SHA-256, RandomX, the manifest checksum) are constants of
function type about which nothing is assumed. Statements that rest on a hash name
the collision or the difference they need.

## What does not hold

The code was followed where it does not do what one would expect of it.

- Pruning a body deletes transaction and receipt rows that a retained body shares
  with it (`HashRowsSoundExactly`), and stopped after the body it leaves rows that
  no later pruning finds (`PruneResumes`). Stopped among the log rows it leaves a
  body that the index misses (`PrunePrefixExact`).
- A stop between an insertion and the manifest refresh leaves a generation that
  does not verify (`InsertPrefixVerifies`).
- A reorganisation loses the row of a transaction that the kept prefix shares
  with the removed suffix, unless the replacement brings it back
  (`ReorgEqualsRebuild`).
- A failed batch leaves its journal. If the node extends its chain before it is
  restarted, the restart fails (`FailedPublishThenExtend`).
- Recovering generations twice is not recovering once: the fallback marks a
  manifest active and leaves the checksum in its publication record behind
  (`RecoverTwice`).
- Storing a second block into a recovery slot makes the index lie about the
  first (`StoreKeepsExactly`).
- The candidate search and fork choice break ties differently
  (`LatestAgreesWithForkChoice`).
- A full block with an odd gas limit can raise the base fee by more than an
  eighth (`FeeCeilingExactly`). The 128-bit fee product is modelled as wrapping
  around, as in a build without overflow checks; with the checks it would panic.
- The next base fee is monotone in the gas used only where the product does
  not wrap around (`FeeMonotoneExactly`).
- With the largest gas limit block filling takes everything
  (`LargestLimitTakesAll`). Its comparator is not an order when another sender's
  fee lies between rising fees of one sender (`TransitiveExactly`).

## Model

| member | source | states |
|---|---|---|
| `Publication.CrashSafe` | crates/blq-storage/src/lib.rs:1975-2126 | Stop a suffix publication after any number of its durable writes, with or without the journal of an earlier failed one on disk, then stop any number of recoveries anywhere: the recovery that completes succeeds, removes the journal and leaves a generation that verifies; its tables are wholly the old ones if the batch was not committed and wholly the new ones otherwise; the files go with the tables, except that old tables get the files of the target when the stored tip already was the target tip |
| `Publication.PublicationIsAtomic` | crates/blq-storage/src/lib.rs:1975-2126 | Whatever stops on the way, the tables end as they were, or as the rows below the ancestor (all of them or what pruning left) with exactly the rows of the replacement on top; then the native accounts, the snapshot of the new tip and of no other height, supply, reward height, code and slots read back are exactly the supplied ones |
| `Publication.PublicationReplacesChain` | crates/blq-storage/src/lib.rs:1975-2126 | For a node that stores a whole chain, a publication stores the old chain or prefix and replacement, as if inserted block by block into an empty database, so that publications can follow one another; accounts and execution state read back are the supplied ones |
| `Publication.AcceptedIsEnabled` | crates/blq-storage/src/lib.rs:1983-2044 | A publication whose plan goes through removes every stored body above the ancestor and numbers its replacement without gaps, which is what keeps the log index exact |
| `Publication.RecoveryResumes` | crates/blq-storage/src/lib.rs:711-740 | On any disk where recovery succeeds, interrupting it after any write changes neither that the next attempt succeeds nor the state it ends in |
| `Publication.InterruptedSettles` | crates/blq-storage/src/lib.rs:711-740 | The same for any sequence of interrupted recoveries |
| `Publication.PublishThenSettle` | crates/blq-storage/src/lib.rs:2018-2126 | From a verified generation, recovery after the first k writes of a publication ends exactly in the published state, or in the old tables with the old files, or (stored tip already the target) in the old tables with the target files |
| `Publication.VerifyDone` | crates/blq-storage/src/lib.rs:630-709 | The files a completed publication writes pass the strict generation check for the target manifest, and the record carries the checksum of that very manifest |
| `PublicationRules.VerifyExactly` | crates/blq-storage/src/lib.rs:630-709 | A generation verifies if and only if its manifest is active or verified and agrees with the row of the best number and its header, a publication record names its generation, and either manifest and checkpoint file both have no checkpoint or the file is of the same generation, at the height of the manifest, not above the tip, with hash and state root of the header stored there |
| `PublicationRules.VerifiedCheckpoint` | crates/blq-storage/src/lib.rs:677-696 | A checkpoint of a verified generation has the hash and the root of the header stored at its height, and manifest, record and checkpoint name one generation |
| `PublicationRules.RepairedIsFresh` | crates/blq-storage/src/lib.rs:698-706 | Verifying leaves a record with the checksum of the very manifest, changes nothing else and does not change the verdict |
| `PublicationRules.RunsAgree` | crates/blq-storage/src/lib.rs:630-740 | After every run of the node, and after a restart however often interrupted, all files agree with the rows in this sense |
| `PublicationRules.AcceptedExactly` | crates/blq-storage/src/lib.rs:1983-2017 | A request is accepted if and only if its ancestor has the hash of the header stored at its height, the replacement is a non-empty chain on it by number and hash, and the target describes the last block and takes it as checkpoint |
| `PublicationRules.ForeignAncestorRefused` | crates/blq-storage/src/lib.rs:1983-1995 | An ancestor other than the stored header is refused with nothing written, unless the two headers are a hash collision |
| `Publication.FailedPublishThenExtend` | crates/blq-storage/src/lib.rs:2116-2119 | If the batch fails and the running node then extends its chain, by any number of blocks, the next open succeeds exactly when the new tip is itself the target |
| `Publication.SuffixOver` | crates/blq-storage/src/lib.rs:2028-2034 | On a node whose rows above the ancestor are those of a suffix, an accepted request removes exactly the bodies of that suffix |
| `Storage.SledStorage.PublishCanonicalSuffix` | crates/blq-storage/src/lib.rs:1975-2126 | The state afterwards is the old one with exactly the writes performed that the machine had power for, and success is reported exactly when all were |
| `Storage.SledStorage.RecoverSuffixPublication` | crates/blq-storage/src/lib.rs:711-740 | The same for start-up recovery: finish, discard or refuse by comparing the stored tip with the journal |
| `Storage.SledStorage.VerifyGenerationManifest` | crates/blq-storage/src/lib.rs:630-709 | The result is the manifest exactly when status, tip, record and checkpoint describe one generation; a stale publication record is rewritten last and nothing else changes |
| `Storage.CheckContiguous` | crates/blq-storage/src/lib.rs:1996-2010 | Accepts exactly the replacements in which every block names its predecessor by number and hash, and gives the last header |
| `ChainTables.ReorgReplacesSuffix` | crates/blq-storage/src/lib.rs:2028-2114 | Over any rows below a height, pruned or not, replacing the suffix leaves those rows with the replacement on top if and only if every transaction hash they share with the removed suffix is in the replacement again |
| `ChainTables.ReorgEqualsRebuild` | crates/blq-storage/src/lib.rs:2028-2114 | After a suffix replacement the tables equal a rebuild from kept prefix and replacement if and only if every transaction hash shared by prefix and removed suffix is in the replacement again |
| `ChainTables.PublishedAccounts` | crates/blq-storage/src/lib.rs:2045-2057 | The account snapshot after a publication is exactly the supplied accounts, with nothing left of the ones before |
| `StateReaders.PublishedState` | crates/blq-storage/src/lib.rs:2058-2106 | After a publication every reader answers with what was supplied: the snapshot at a height is the supplied one exactly at the new tip and absent elsewhere, supply and reward height, and code and slots of every account with the defaults of the readers for the rest |
| `StateReaders.LatestAfterPublication` | crates/blq-storage/src/lib.rs:2488-2522 | The search for a snapshot at or before a height then finds the supplied one from the tip on and nothing below |
| `Storage.SledStorage.EvmSnapshotAtOrBefore` | crates/blq-storage/src/lib.rs:2488-2522 | The scan finds the snapshot of the greatest height up to the given one, or fails exactly when a snapshot up to it is malformed |
| `ChainTables.RowKeys` | crates/blq-storage/src/lib.rs:1240-1293 | Every row of a block is filed under its number or one of its hashes, and a hash has a row exactly when one of its transactions is indexed under it |
| `BatchBuilder.BuildBatch` | crates/blq-storage/src/lib.rs:2028-2114 | The loops over bodies, log rows, accounts, blocks and slots build a batch that turns the database into the published one; it fails exactly when a body is missing or a log row is malformed |
| `BatchBuilder.WriteRows` | crates/blq-storage/src/lib.rs:1240-1293 | The nested loops write exactly the rows of the block over what was there |
| `BatchBuilder.RemoveBlockFromBatch` | crates/blq-storage/src/lib.rs:1295-1306 | The loop schedules the removal of exactly the body, header, transaction and receipt rows of the block |
| `BatchBuilder.RemoveSuffix` | crates/blq-storage/src/lib.rs:2030-2034 | Schedules the rows of all bodies from a height to the tip, or fails exactly when one is missing |
| `BatchBuilder.RemoveLogRows` | crates/blq-storage/src/lib.rs:2035-2044 | The prefix scan schedules exactly the log rows at or above the height, or fails exactly when one is malformed |
| `BatchBuilder.WriteEvm` | crates/blq-storage/src/lib.rs:2058-2067 | Stores non-empty code and non-zero slots of every account and nothing else |
| `Storage.SledStorage.InsertBlock` | crates/blq-storage/src/lib.rs:2854-2900 | The loops make exactly the first writes of the insertion that the machine had power for; complete, they add the rows of the block and move the best number |
| `RowWrites.InsertWritesExtend` | crates/blq-storage/src/lib.rs:2854-2900 | The single row writes of an insertion, in order, make up the extension of the chain |
| `RowWrites.InsertPrefixExact` | crates/blq-storage/src/lib.rs:2854-2900 | Stopped after any number of its row writes, an insertion at a new height leaves an exact log index if and only if nothing was written yet or every log row of the block was |
| `RowWrites.InsertPrefixVerifies` | crates/blq-storage/src/lib.rs:2854-2900 | Stopped after any number of its row writes, the generation still verifies if and only if the last one, which moves the tip, was not made |
| `RowWrites.InsertResumes` | crates/blq-storage/src/lib.rs:2854-2900 | Inserting the same block again completes a stopped insertion |
| `Storage.SledStorage.AccountSnapshot` | crates/blq-storage/src/lib.rs:2360-2378 | The two scans collect balance and nonce by address with zero for what is missing, or fail exactly when a row is malformed |
| `NodeRuns.EveryRunIsSafe` | crates/blq-storage/src/lib.rs:1308-1355 | After every run of insertions with manifest refresh, publications completed, failed or cut anywhere, restarts and prunings, the node restarts, however often that is interrupted, with the same database and a generation that verifies, and a height is reported for a filter exactly when it is in range, its body is retained and the body has a log the filter selects |
| `NodeRuns.RunStoresChain` | crates/blq-storage/src/lib.rs:1975-2126 | Through every such run without pruning in which no shared transaction is dropped, the tables are those of inserting the chain of the node block by block into an empty database |
| `LinkedRuns.RunStaysLinked` | crates/blq-storage/src/lib.rs:1975-2126 | Through every such run the stored chain stays one chain: each block names the hash of the one before and has the next number, across every publication and crash |
| `LinkedRuns.AncestorHash` | crates/blq-storage/src/lib.rs:1983-1995 | The ancestor of an accepted request has the hash of the block of the chain at its height |
| `Lookups.RunAnswers` | crates/blq-storage/src/lib.rs:2578-2640 | Through every such run a transaction or receipt asked for by either hash is that of the last transaction of the chain that goes by it, with the receipt, header and position it has there; an unknown hash finds neither |
| `NodeRuns.RunKeepsSound` | crates/blq-storage/src/lib.rs:630-740 | Every run keeps that the generation verifies, that a pending journal can be discarded, that the log index is exact and that headers are filed under their numbers |
| `NodeRuns.PublishSucceeds` | crates/blq-storage/src/lib.rs:1983-2126 | On a node that stores a chain, every contiguous replacement above one of its headers, with a manifest that describes it, is accepted and carried out |
| `NodeRuns.InsertVerifies` | crates/blq-node/src/main.rs:11571-11583 | An extension followed by the manifest refresh keeps the generation verified; the manifest names the new block, is active, and keeps generation, profile and checkpoint, and the record is fresh |
| `NodeRuns.FreshIsSound` | crates/blq-node/src/main.rs:11449-11462 | A node that stored its genesis block and wrote its first manifest starts such a run |
| `LogIndex.EveryRunAnswersExactly` | crates/blq-storage/src/lib.rs:1308-1355 | Over every run of tip extensions, complete suffix replacements and prunings from an empty database, a height is reported exactly when it is in range, its body is retained and the body has a log the filter selects |
| `LogIndex.HeadersStayFiled` | crates/blq-storage/src/lib.rs:1357-1369 | Extending, replacing a suffix and pruning keep every header row under its own number |
| `LogIndex.RunKeepsSound` | crates/blq-storage/src/lib.rs:1220-1238 | Every run keeps the log rows in exact agreement with the retained bodies |
| `LogIndex.IndexAgreesWithScan` | crates/blq-storage/src/lib.rs:1308-1355 | On a sound index the prefix scans answer as a scan of the bodies would |
| `LogIndex.ExtendSoundExactly` | crates/blq-storage/src/lib.rs:1220-1238 | Writing a block over a stored height keeps the index sound if and only if the replaced body had no log row that the new one lacks |
| `LogIndex.ReplaceKeepsSound` | crates/blq-storage/src/lib.rs:2028-2053 | A suffix replacement keeps the index sound |
| `LogIndex.PruneKeepsSound` | crates/blq-storage/src/lib.rs:2199-2217 | Dropping a body keeps the index sound |
| `LogIndex.RowIffLog` | crates/blq-storage/src/lib.rs:1220-1238 | A block has a row of a kind exactly when it has a log the row describes |
| `Lookups.LogRowsReadBack` | crates/blq-storage/src/lib.rs:1220-1238 | On a sound index the rows at a position (block, transaction, log) are exactly those of the log that the body has there: the position, its address and each of its topics |
| `Storage.SledStorage.IndexedLogBlockNumbers` | crates/blq-storage/src/lib.rs:1308-1355 | The scans return exactly the indexed heights in range, or fail exactly when a scanned row is malformed |
| `Pruning.PrunesOldestFirst` | crates/blq-storage/src/lib.rs:2128-2179 | Pruning removes the oldest bodies above the minimum, up to the first disk-usage reading at the target, whatever the readings are; every other body, every header and the exactness of the log index stay |
| `Pruning.PruneTargetIs` | crates/blq-storage/src/lib.rs:2133-2133 | The target is nine tenths of the budget rounded down, until the ninefold no longer fits 64 bits, and never above the budget |
| `Pruning.HashRowsSoundExactly` | crates/blq-storage/src/lib.rs:2159-2173 | After pruning, the transaction and receipt rows are those of the retained bodies if and only if no retained body shares a transaction hash with a dropped one |
| `Pruning.HashRowLeft` | crates/blq-storage/src/lib.rs:2159-2173 | A transaction or receipt row goes exactly when a dropped body is indexed under it |
| `Storage.SledStorage.PruneOldBlocks` | crates/blq-storage/src/lib.rs:2128-2179 | The loop prunes the listed heights in ascending order until a reading of the disk usage is at the target, or the machine stops |
| `Storage.SledStorage.PruneBlock` | crates/blq-storage/src/lib.rs:2153-2173 | Makes exactly the first removals that the machine had power for: log rows, body, transaction and receipt rows; passes over an unreadable body |
| `RowWrites.PruneWritesPrune` | crates/blq-storage/src/lib.rs:2153-2173 | The single removals, in order, make up dropping the body |
| `RowWrites.PrunePrefixExact` | crates/blq-storage/src/lib.rs:2153-2173 | Stopped after any number of removals, dropping a body leaves an exact log index if and only if nothing was removed yet or the body was |
| `RowWrites.PruneResumes` | crates/blq-storage/src/lib.rs:2153-2173 | Dropping the body again completes what was stopped if and only if the body is still there or no transaction or receipt row of it was left anyway |
| `Pruning.ListHeights` | crates/blq-storage/src/lib.rs:2134-2148 | The scan and sort give every stored height above the minimum, once, ascending |
| `Keys.SpellInjective` | crates/blq-storage/src/lib.rs:2656-2720 | Two database keys with the same bytes are the same key |
| `Keys.LocationNumberBack` | crates/blq-storage/src/lib.rs:2656-2662 | A log location gives its block number back whatever the two indexes |
| `Keys.LocationParts` | crates/blq-storage/src/lib.rs:2656-2662 | And the transaction and log index modulo 2^32 |
| `Keys.ScanLogIndex` | crates/blq-storage/src/lib.rs:2035-2036 | The log prefix matches exactly the log rows |
| `Keys.ScanAddress` | crates/blq-storage/src/lib.rs:2670-2681 | An address prefix matches exactly the rows of that address |
| `Keys.ScanTopic` | crates/blq-storage/src/lib.rs:2683-2694 | A topic prefix matches exactly the rows of that topic |
| `Keys.ScanAccounts` | crates/blq-storage/src/lib.rs:2045-2050 | The account prefix matches exactly balances, nonces, code and slots |
| `Generations.StagingIsAtomic` | crates/blq-storage/src/lib.rs:587-625 | A staged publication stopped anywhere and followed by recovery leaves no staging directory and the pointer on a usable generation: the old one until the pointer was written, the new one from then on; other generations are untouched |
| `GenerationRules.StagedFiles` | crates/blq-storage/src/lib.rs:587-625 | A generation published from staging and recovered has the staged rows, its files agree with them, and unless a journal was staged with it the manifest is the given one with a fresh record |
| `Generations.StagingFromAnyState` | crates/blq-storage/src/lib.rs:587-625 | Without a usable active generation the pointer ends on the new generation once written, on the highest usable one including the new one after the rename, and on the highest usable old one before it |
| `Generations.RecoveryPicks` | crates/blq-storage/src/lib.rs:742-826 | From any state recovery fails exactly when the active generation is unusable and some candidate does not open; otherwise staging is gone, the same generations are usable, and the pointer keeps a usable generation or moves to the highest usable one |
| `GenerationRules.RecoveredFiles` | crates/blq-storage/src/lib.rs:742-826 | Recovery changes no row of any generation; it marks the unusable active one failed and the chosen one active, and every other manifest stays or is the target of its settled journal |
| `GenerationRules.UsableExactly` | crates/blq-storage/src/lib.rs:807-826 | A directory is usable if and only if its manifest is active or verified and, with a database, its files agree with its rows once its journal is settled |
| `GenerationRules.SettledFiles` | crates/blq-storage/src/lib.rs:711-740 | Settling a journal keeps every row; it brings all files to the target if the stored tip is the target, and otherwise only removes the journal |
| `GenerationRules.SettlesExactly` | crates/blq-storage/src/lib.rs:711-740 | It succeeds if and only if there is no journal or the stored tip is that of its target or of its previous manifest |
| `Generations.RecoverTwice` | crates/blq-storage/src/lib.rs:742-778 | Running recovery again changes nothing if and only if the fallback did not change a manifest under its publication record; a third run never changes anything |
| `Generations.RecoveringTwiceCanDiffer` | crates/blq-storage/src/lib.rs:769-776 | A verified generation with a database and a publication record, reached by the fallback, is rewritten by a second run |
| `Generations.GenerationStore.RecoverUntilDone` | crates/blq-storage/src/lib.rs:742-826 | Recovery tried again after every stop ends on the generation the first attempt was bound for, with the same generations usable and no staging directory, and succeeds if the first attempt could have, as soon as one attempt has power for all its writes |
| `Generations.CheckSettles` | crates/blq-storage/src/lib.rs:807-826 | Checking a directory changes neither whether it opens nor whether it is usable, and checking it again changes nothing |
| `Generations.PartialCheck` | crates/blq-storage/src/lib.rs:807-826 | A check stopped after any write leaves a directory that opens and is usable exactly when it was before |
| `Generations.StagedIsUsable` | crates/blq-storage/src/lib.rs:605-613 | A directory that could be published passes the start-up check as it stands |
| `Generations.GenerationStore.RecoverGenerationState` | crates/blq-storage/src/lib.rs:742-778 | Completed, it has done what the specification of recovery says, for every order of reading the directory; stopped anywhere, recovery succeeds from the new state exactly if it did from the old, on the same usable generations, and ends on the same one |
| `Generations.GenerationStore.Scan` | crates/blq-storage/src/lib.rs:780-805 | Checks every generation and finds the highest usable one, or fails when one does not open |
| `Generations.GenerationStore.Check` | crates/blq-storage/src/lib.rs:807-826 | Opens and verifies one generation; stopped on the way it leaves an equivalent directory |
| `Generations.GenerationStore.PublishStagingGeneration` | crates/blq-storage/src/lib.rs:587-625 | Reaches exactly one of three states (staging prepared, renamed, pointer written) and succeeds exactly in the last |
| `RecoverySpool.EveryLookupExact` | crates/blq-storage/src/lib.rs:1608-1754 | In every mix of store, clear, list and lookup, with index entries missing or in the legacy form, a lookup answers with a block of that hash and the work of its slot exactly when some spool holds one |
| `RecoverySpool.LookupExact` | crates/blq-storage/src/lib.rs:1635-1704 | One lookup on a right index is exact and leaves the index right |
| `SpoolRules.SlotHoldsLastStored` | crates/blq-storage/src/lib.rs:1608-1754 | In every run that starts empty a slot holds exactly the last block stored there since its tip was cleared, and its work |
| `SpoolRules.ListingRises` | crates/blq-storage/src/lib.rs:1709-1754 | A listing of a tip then has all those blocks by strictly rising block number |
| `SpoolRules.StoredIsFound` | crates/blq-storage/src/lib.rs:1608-1633 | A stored block is found by its hash at once, with its work; no other slot or index entry is touched |
| `SpoolRules.LookupRepeats` | crates/blq-storage/src/lib.rs:1635-1704 | A lookup that found a block leads straight to the same one the next time |
| `SpoolRules.ListingIndexes` | crates/blq-storage/src/lib.rs:1709-1754 | After a listing every block of the tip is reached without a scan |
| `SpoolRules.ClearedExactly` | crates/blq-storage/src/lib.rs:1847-1870 | Clearing removes exactly the slots of the tip and the index entries of their blocks |
| `RecoverySpool.StoreKeepsExactly` | crates/blq-storage/src/lib.rs:1608-1633 | Storing keeps the index right if and only if it does not replace a block that the index leads to by that slot |
| `RecoverySpool.OverwrittenSlotMisleads` | crates/blq-storage/src/lib.rs:1608-1633 | After a slot is overwritten, a lookup of the first hash answers with the second block |
| `RecoverySpool.ClearKeeps` | crates/blq-storage/src/lib.rs:1847-1870 | Clearing a tip keeps the index right and forgets exactly the blocks that no other tip holds |
| `RecoverySpool.ListKeeps` | crates/blq-storage/src/lib.rs:1709-1754 | Listing a tip keeps the index right |
| `RecoverySpool.ScanTip` | crates/blq-storage/src/lib.rs:1713-1716 | The prefix of a tip matches exactly the slots of that tip |
| `RecoverySpool.SpellSlotInjective` | crates/blq-storage/src/lib.rs:1616-1616 | Two slots with the same key bytes are the same slot |
| `RecoverySpool.RecoveryStore.StoreBlock` | crates/blq-storage/src/lib.rs:1608-1633 | Files the block and its work and points the index at the slot |
| `RecoverySpool.RecoveryStore.BlockByHash` | crates/blq-storage/src/lib.rs:1635-1704 | Follows a slot pointer, otherwise scans the legacy tip or everything and repairs the index |
| `RecoverySpool.RecoveryStore.BlocksForTip` | crates/blq-storage/src/lib.rs:1709-1754 | Lists all blocks of a tip once, lowest height first, and points the index at their slots |
| `RecoverySpool.RecoveryStore.ClearTip` | crates/blq-storage/src/lib.rs:1847-1870 | Removes the slots of the tip and the index entries of their hashes, and nothing else |
| `TargetArithmetic.DivideHashWithRemainder` | crates/blq-consensus/src/lib.rs:343-352 | Byte-wise long division: hash = quotient * divisor + remainder with remainder below the divisor |
| `TargetArithmetic.MultiplyHash` | crates/blq-consensus/src/lib.rs:354-367 | Byte-wise product, saturating at 2^256 - 1 |
| `TargetArithmetic.AddCarry` | crates/blq-consensus/src/lib.rs:310-321 | Byte-wise carry addition, saturating at 2^256 - 1 |
| `TargetArithmetic.ScaleTargetFraction` | crates/blq-consensus/src/lib.rs:307-321 | Exactly min(2^256 - 1, floor(target * numerator / denominator)) |
| `TargetArithmetic.ScaleTarget` | crates/blq-consensus/src/lib.rs:323-341 | The same exact value by the other route |
| `TargetArithmetic.SatisfiesPowIsNumeric` | crates/blq-consensus/src/lib.rs:232-234 | Comparing the bytes of hash and target is comparing the numbers |
| `Difficulty.NextBlockDifficultyTargetV2` | crates/blq-consensus/src/lib.rs:267-305 | The controller, saturating products included, scales by one of five fractions decided by median and latest interval |
| `Difficulty.StepMonotone` | crates/blq-consensus/src/lib.rs:267-305 | A step is monotone in target, in median and in latest interval |
| `Difficulty.StepBounds` | crates/blq-consensus/src/lib.rs:267-305 | A step lies between floor(3t/4) and min(2^256 - 1, floor(9t/8)) |
| `Difficulty.StepValues` | crates/blq-consensus/src/lib.rs:267-305 | The step is 3t/4 up to a median of 2, else 9t/8 from a latest interval of 60, else 15t/16 up to a median of 14, t at 15 and 17t/16 from 16, rounded down and saturating |
| `Difficulty.RunBounds` | crates/blq-consensus/src/lib.rs:267-305 | After n steps t_n * 8^n <= t_0 * 9^n and (t_0 + 3) * 3^n <= (t_n + 3) * 4^n |
| `Difficulty.RunMonotone` | crates/blq-consensus/src/lib.rs:267-305 | A run with pointwise slower blocks from an easier target ends at an easier target |
| `Consensus.ValidateTransactionFees` | crates/blq-consensus/src/lib.rs:177-180 | The loop gives the verdict of the first failing transaction and accepts exactly when none fails |
| `BlockRules.BlockVerdictExactly` | crates/blq-consensus/src/lib.rs:114-181 | A block is valid if and only if it passes every check, each stated by itself with its constants (numeric proof of work, epoch of 2048, 2 MiB, roots, base fee, every transaction); otherwise the error is that of the first check in order that fails |
| `BlockRules.FeeVerdictExactly` | crates/blq-consensus/src/lib.rs:194-230 | A transaction passes if and only if chain id, type, payload, access list limits, max fee and priority fee are right; otherwise the error is that of the first that is not |
| `BlockRules.FeesVerdictExactly` | crates/blq-consensus/src/lib.rs:177-180 | A list passes if and only if each does; otherwise the error is that of the first transaction that fails |
| `BlockRules.ChainExactly` | crates/blq-consensus/src/lib.rs:152-181 | A chain is valid if and only if every block names the hash and next number of the one before, has its work within its target, as many receipts as transactions, right roots and base fee, and only transactions that pay at least the base fee with the priority fee within the max fee |
| `BlockRules.HeaderBindsBody` | crates/blq-consensus/src/lib.rs:165-173 | Two blocks that are valid, on any parents, with one header have equal receipts and equal recoverable transactions, or two of the hashed preimages collide, or one hashes to the hash that stands for an empty list |
| `BlockRules.TipHashBindsHistory` | crates/blq-consensus/src/lib.rs:152-181 | Two valid chains of one length with the same tip hash grew from the same header by the same blocks, or the bytes hashed along them break the hash in this sense |
| `FeeRules.FeeFalls` | crates/blq-consensus/src/lib.rs:369-388 | Below the gas target T at distance d, with p the 128-bit product of fee b and d: 8T(b - next) <= p < 8T(b - next + 1), for every fee |
| `FeeRules.FeeRises` | crates/blq-consensus/src/lib.rs:369-388 | Above it the rise is 1 if p < 8T and otherwise the step with 8T*step <= p < 8T(step + 1), saturating |
| `FeeRules.FeeStays` | crates/blq-consensus/src/lib.rs:369-388 | At the target the fee stays |
| `FeeRules.EighthIsUnique` | crates/blq-consensus/src/lib.rs:369-388 | The inequalities fix the step |
| `FeeRules.EmptyBlocksLowerFee` | crates/blq-consensus/src/lib.rs:152-181 | Over every validated chain of n blocks on empty ones, as long as no 128-bit product wraps around, (b_n - 7) * 8^n <= (b_0 - 7) * 7^n for fees from 7 on, and a fee of at most 7 stays |
| `Consensus.FeeMonotoneExactly` | crates/blq-consensus/src/lib.rs:369-388 | For every fee below 2^127 the next fee is monotone in the gas used, over all blocks with a given gas limit, if and only if no 128-bit product wraps around |
| `Consensus.FeeMonotoneInGasUsed` | crates/blq-consensus/src/lib.rs:369-388 | A fuller parent never lowers the next base fee, for any fee, where the 128-bit products fit |
| `Consensus.WrappedProductNotMonotone` | crates/blq-consensus/src/lib.rs:377-377 | Where the product wraps around, a fuller parent can lower the fee |
| `Consensus.FeeFloor` | crates/blq-consensus/src/lib.rs:369-388 | One step keeps at least seven eighths of the fee, and a fee of at least 7 stays at least 7, wrapped or not |
| `Consensus.FeeCeilingExactly` | crates/blq-consensus/src/lib.rs:369-388 | A step stays within (9b + 8)/8 for every fee if and only if the parent used at most twice the gas target, or the target is so large that every fee it could break for wraps the product around |
| `Consensus.ChainFeeFloor` | crates/blq-consensus/src/lib.rs:152-181 | Over every validated chain b_0 * 7^n <= b_n * 8^n, and the fee never falls below 7 again |
| `Consensus.ChainFeeCeiling` | crates/blq-consensus/src/lib.rs:152-181 | With even gas limits (b_n + 8) * 8^n <= (b_0 + 8) * 9^n over every validated chain |
| `Consensus.ScheduleIsExact` | crates/blq-consensus/src/lib.rs:67-84 | The per-height schedule issues exactly k BLQ over blocks 1 to 60k |
| `Consensus.IssuanceFollowsTime` | crates/blq-consensus/src/lib.rs:86-91 | Over every validated chain the time-based reward is at most 10^18/600 per second elapsed and, with no gap over the cap, behind it by less than one unit per block |
| `ForkChoice.WorkForTarget` | crates/blq-network/src/lib.rs:207-226 | Exactly min(2^128 - 1, floor(2^256 / (target + 1))) without 257-bit arithmetic |
| `ForkChoice.WorkIs` | crates/blq-network/src/lib.rs:207-226 | work * (target + 1) <= 2^256 < (work + 1) * (target + 1), the second unless the work saturates |
| `ForkChoice.WorkAntitone` | crates/blq-network/src/lib.rs:207-226 | A smaller target is never worth less work |
| `ForkChoice.BetterBranchStrictTotalOrder` | crates/blq-network/src/lib.rs:228-238 | The comparison of tips is irreflexive, transitive and total up to equal work, height and hash |
| `ForkChoice.ExtendWinsExactly` | crates/blq-network/src/lib.rs:195-204 | An extension beats its tip unless work and height are both saturated and the hash is not lower |
| `ForkChoice.LongerChainWins` | crates/blq-network/src/lib.rs:195-204 | Any chain of extensions beats the tip it starts from if and only if work or height of that tip is not saturated or the last hash is lower |
| `ForkChoice.ChampionUnbeaten` | crates/blq-network/src/lib.rs:228-238 | Keeping the better of best and arrival ends with a tip that none of the arrivals beats |
| `ForkChoice.ChampionOrderIndependent` | crates/blq-network/src/lib.rs:228-238 | The winner does not depend on arrival order or repetition |
| `ForkChoice.LatestCandidateTip` | crates/blq-storage/src/lib.rs:1895-1914 | The loop finds the non-quarantined candidate with the most work, lowest hash on a tie, and None exactly when all are quarantined |
| `ForkChoice.LatestOrderIndependent` | crates/blq-storage/src/lib.rs:1791-1802 | The answer is a function of what is stored, not of the scan order |
| `ForkChoice.LatestAgreesWithForkChoice` | crates/blq-storage/src/lib.rs:1895-1914 | Its pick is also the fork-choice winner if and only if among the stored eligible candidates of greatest work one is both the tallest and the lowest by hash |
| `ForkChoice.LatestAgreesOnEqualHeights` | crates/blq-storage/src/lib.rs:1895-1914 | In particular when candidates of equal work have equal heights |
| `ForkChoice.LatestDisagreesOnTallerRival` | crates/blq-storage/src/lib.rs:1895-1914 | Two candidates on which the two orders pick differently |
| `Canonical.HeaderBack` | crates/blq-primitives/src/lib.rs:588-607 | A header is read back from the front of any bytes it was written into |
| `Canonical.HeaderHashesAt` | crates/blq-primitives/src/lib.rs:588-607 | Parent hash, number, roots, beneficiary and target stand at bytes 0 to 200 of the header in that order |
| `Canonical.HeaderCountersAt` | crates/blq-primitives/src/lib.rs:588-607 | Base fee, gas limit, gas used, time and algorithm follow, with their widths |
| `Canonical.HeaderSealAt` | crates/blq-primitives/src/lib.rs:588-627 | Epoch, extra nonce, mix hash and nonce come last, and the proof-of-work preimage is the same bytes without the mix hash |
| `Canonical.PowPreimageInjective` | crates/blq-primitives/src/lib.rs:609-627 | Two headers have the same proof-of-work preimage exactly when they differ at most in the mix hash |
| `Canonical.LogRoundTrip` | crates/blq-primitives/src/lib.rs:525-536 | Decoding the bytes of a log gives the log |
| `Canonical.ReceiptRoundTrip` | crates/blq-primitives/src/lib.rs:538-552 | Decoding the bytes of a receipt gives the receipt |
| `Canonical.TransactionRoundTrip` | crates/blq-primitives/src/lib.rs:296-337 | Decoding the bytes of a transaction gives all but the external hash and, without an access list, type 0 against 2 |
| `Canonical.TransactionBytesIdentify` | crates/blq-primitives/src/lib.rs:296-337 | Among accepted shapes two transactions have the same bytes exactly when they differ only in those two respects |
| `Canonical.BlockRoundTrip` | crates/blq-primitives/src/lib.rs:642-654 | Decoding the bytes of a block gives header, receipts and transactions back, for every length |
| `Canonical.EncodeTransaction` | crates/blq-primitives/src/lib.rs:296-337 | The appending loops write exactly the specified bytes |
| `Canonical.EncodeBlock` | crates/blq-primitives/src/lib.rs:642-654 | The appending loops write exactly the specified bytes |
| `Canonical.MerkleLikeRoot` | crates/blq-primitives/src/lib.rs:699-715 | The hashing loop hashes exactly the specified preimage |
| `Canonical.RootPreimageInjective` | crates/blq-primitives/src/lib.rs:699-715 | Two item lists with the same root preimage are equal |
| `Canonical.TransactionsRootBinds` | crates/blq-primitives/src/lib.rs:685-715 | Two lists with equal transaction roots have equal recoverable transactions, or the two preimages that were hashed are a hash collision |
| `Canonical.ReceiptsRootBinds` | crates/blq-primitives/src/lib.rs:689-715 | Two lists with equal receipt roots are equal, or the two preimages that were hashed are a hash collision |
| `Rlp.AppendHeader` | crates/blq-primitives/src/lib.rs:485-499 | The length loop writes the RLP header of Appendix B of the Ethereum Yellow Paper |
| `Rlp.UintMinimal` | crates/blq-primitives/src/lib.rs:459-475 | Integers are encoded without a leading zero byte, zero as the empty string |
| `Rlp.WordMinimal` | crates/blq-primitives/src/lib.rs:477-483 | So are 32-byte words |
| `Rlp.RoundTrip` | crates/blq-primitives/src/lib.rs:437-457 | The RLP decoder recovers every item from its encoding, for all lengths and nestings |
| `Rlp.OnlyCanonical` | crates/blq-primitives/src/lib.rs:437-499 | The decoder accepts nothing but what the encoder writes |
| `Rlp.SignedRoundTrip` | crates/blq-primitives/src/lib.rs:380-412 | An EIP-1559 decoder (Specification section of EIP-1559) recovers every encoded field of a signed transaction |
| `Rlp.SignedLayout` | crates/blq-primitives/src/lib.rs:380-412 | The signed form is the byte 2 and one RLP list of the twelve fields in the order of the Specification section of EIP-1559, numbers without leading zeros |
| `Rlp.SignedCanonical` | crates/blq-primitives/src/lib.rs:380-412 | Bytes that decode to a signed transaction are the bytes it encodes to |
| `Rlp.SigningPayloadBinds` | crates/blq-primitives/src/lib.rs:352-378 | Two transactions have the same payload to sign if and only if all fields on the wire but the signature are equal |
| `Mempool.Mempool.Add` | crates/blq-mempool/src/lib.rs:49-101 | Validation, duplicate, replacement, eviction and insertion update pool and first-seen times as specified |
| `MempoolRules.AddResultExactly` | crates/blq-mempool/src/lib.rs:49-101 | Each result exactly by its cause: below 1 Gwei, refused by consensus, a rival of the same sender and nonce with at least the max fee, a full pool of which no entry pays less; refused or known transactions change nothing |
| `MempoolRules.AddStateExactly` | crates/blq-mempool/src/lib.rs:65-101 | An admitted transaction replaces its rival of lower max fee, or in a full pool an entry that pays least and less than it, whose first-seen time goes, or is added; everything else stays and its time is now |
| `MempoolRules.RemovesExactly` | crates/blq-mempool/src/lib.rs:121-259 | Each removal leaves exactly the survivors (by age, by nonce, by hash), as often and in the order they were, and forgets exactly the times of the removed |
| `Mempool.Mempool.RemoveExpired` | crates/blq-mempool/src/lib.rs:121-141 | A transaction stays exactly when it is younger than the limit by its first-seen time (unseen ones count as new); state and count of the removed as specified |
| `Mempool.Mempool.RemoveStaleNonces` | crates/blq-mempool/src/lib.rs:227-242 | A transaction stays exactly when its nonce is at least the expected one of its sender; state as specified |
| `Mempool.Mempool.RemoveIncluded` | crates/blq-mempool/src/lib.rs:244-259 | A transaction stays exactly when neither of its hashes is listed; state as specified |
| `Mempool.RunKeepsConsistent` | crates/blq-mempool/src/lib.rs:49-141 | Every run keeps the pool sorted, at most 5,000 long, unique by hash and by sender and nonce, with first-seen covering it |
| `Mempool.SlotFeeOnlyRises` | crates/blq-mempool/src/lib.rs:65-76 | An operation leaves an occupied slot with the same transaction or a strictly higher max fee |
| `Mempool.SlotFeeRisesOverRun` | crates/blq-mempool/src/lib.rs:49-141 | Over any run during which a slot stays occupied its max fee never falls |
| `Mempool.PoolIsTopK` | crates/blq-mempool/src/lib.rs:49-101 | A stream of distinct admissible transactions leaves exactly the first 5,000 of the stable fee sort of everything submitted |
| `Mempool.SortStable` | crates/blq-mempool/src/lib.rs:261-267 | Sorting keeps the order of equal fees |
| `Mempool.StableSortUnique` | crates/blq-mempool/src/lib.rs:261-267 | Sorted order and the order among equal fees determine the list, so any stable sort gives it |
| `Mempool.Mempool.DrainForBlock` | crates/blq-mempool/src/lib.rs:204-225 | Sorts a copy of the pool by the comparator and takes every transaction that still fits, in that order |
| `Mempool.FillBlock` | crates/blq-mempool/src/lib.rs:216-224 | The loop takes every transaction that still fits, in the given order |
| `Mempool.FeeIsLexicographic` | crates/blq-mempool/src/lib.rs:261-267 | The fee key compares as priority fee first, max fee second |
| `Mempool.FillPartitions` | crates/blq-mempool/src/lib.rs:216-224 | Taken and passed over together are the candidates, with multiplicity, for any order |
| `Mempool.FillIsMaximal` | crates/blq-mempool/src/lib.rs:216-224 | Below the largest limit the total gas is within it and nothing passed over fits what is left |
| `Mempool.LargestLimitTakesAll` | crates/blq-mempool/src/lib.rs:216-224 | At the largest limit saturation lets everything through |
| `Mempool.LargestLimitOverfills` | crates/blq-mempool/src/lib.rs:216-224 | So there the gas bound fails |
| `Mempool.ComparatorCanCycle` | crates/blq-mempool/src/lib.rs:206-215 | The block comparator is not transitive |
| `Mempool.TransitiveExactly` | crates/blq-mempool/src/lib.rs:206-215 | On a pool the comparator is transitive if and only if no fee of another sender lies between two fees of one sender that rise with the nonce |
| `Mempool.SortForBlockSorts` | crates/blq-mempool/src/lib.rs:206-215 | Where it is transitive, sorting by it puts every pair in order |
| `Mempool.ComparatorIsFeeOrderExactly` | crates/blq-mempool/src/lib.rs:206-215 | It is the plain fee order if and only if each sender pays strictly less for each later nonce |
| `Mempool.BlockInNonceOrder` | crates/blq-mempool/src/lib.rs:204-225 | Any order the comparator accepts gives a block in nonce order for every sender |
| `Mempool.DrainedInNonceOrder` | crates/blq-mempool/src/lib.rs:204-225 | Where no fee of another sender lies between rising fees of one sender, the block is in nonce order for every sender, whatever sort was used |
| `TokenBucket.Gateway.Allowed` | gateway/blq_rpc_proxy.py:171-192 | One call updates the table and decides as specified, cleaning loops included |
| `TokenBucket.WindowBound` | gateway/blq_rpc_proxy.py:171-192 | Over every call sequence with rising times, one client gets at most 20 + 10w calls through in any window of w seconds |
| `TokenBucket.BurstAdmitted` | gateway/blq_rpc_proxy.py:171-192 | In every run a client that was quiet for two seconds gets its next twenty calls through, however fast they come, except exactly when refused for space |
| `TokenBucket.SpacedCallAdmitted` | gateway/blq_rpc_proxy.py:171-192 | And one that was quiet for a tenth of a second gets its call through, with the same exception |
| `TokenBucket.RefusedForSpaceExactly` | gateway/blq_rpc_proxy.py:171-192 | A call is refused for space if and only if the client is unknown and ten thousand others called within the hour; the table then stays |
| `TokenBucket.Conservation` | gateway/blq_rpc_proxy.py:171-192 | Admissions plus tokens left are at most tokens before plus refill |
| `TokenBucket.RunKeepsSound` | gateway/blq_rpc_proxy.py:171-192 | The table never exceeds 10,000 entries and every level stays between 0 and 20 |
| `TokenBucket.CleaningUnobservable` | gateway/blq_rpc_proxy.py:171-192 | Every decision but a refusal for space is the one a never-cleaned table takes |
| `Miner.SealEmptyTemplate` | crates/blq-miner/src/lib.rs:92-108 | Returns the first nonce of the range that satisfies the target, with its mix hash, and None exactly when there is none |
| `Miner.MixHashUnseen` | crates/blq-pow/src/lib.rs:241-252 | The mix hash written by one attempt is not seen by the next |
| `Miner.MinedBlockIsValid` | crates/blq-miner/src/lib.rs:49-82 | A sealed template passes full block validation if and only if it is later than its parent and its nonce solves it, for every proof-of-work function; it is an empty child with the given beneficiary and time and the state root, gas limit and target of the parent, and its hash is at most that target |
| `Miner.MineEmptyBlock` | crates/blq-miner/src/lib.rs:49-108 | Building and sealing gives such a block, valid if later than its parent, with a nonce of the range, or no nonce of the range would be valid |

## Left out

- SHA-256, BLAKE3, Keccak and RandomX: opaque functions.
- EVM execution: not part of this model; accounts arrive as given values.
- JSON, file contents, fsync and sled internals: rows and files are typed values, and rename and batch are atomic.
- A crash inside an insertion, a pruning or a recovery-spool operation in the middle of a run of the node: in runs these are one step; what a stop inside the first two leaves is stated on its own.
- Account rows written along with an inserted block: accounts are followed through publications only.
- A directory of generations inside a generation directory, and directory names that parse to the same id: one directory per id is modelled.
- An I/O error that is reported while the machine goes on: a write that fails stops the machine.
- `MemoryStorage`, `FileStorage`, generation snapshots, `prune_old_generations`, candidate storage apart from the search for the best tip: they would only add easy members.
- `PeerScoreBook`, state transfer and the fee split by utilisation: small one-function facts.
- The older difficulty controllers: superseded by the V2 controller.
- Persistence of the mempool: files and JSON.
- RPC, relay and upstream selection in the gateway, node synchronisation: network plumbing.
- The library sort of Rust is modelled as the stable fee sort in the pool, and when a block is filled as a permutation that is in order where the comparator is an order.
- The nonce lookup passed to the mempool is a function of the address, not a closure with state.
- Token levels and times of the gateway are real numbers, not floating point.
- The order in which a recovery lookup meets several slots with the same hash is left open.
- A raw 32-byte legacy index value that happens to spell the start of a slot key is not modelled.
- Consensus.FeeMonotoneExactly: assumes a fee below 2^127, because above it saturation and rounding can hide the wrapped product and leave no simple condition.
- Canonical.BlockRoundTrip: assumes that every length fits its 64-bit field, as it does in memory.
- Rlp.SignedRoundTrip: assumes that every payload length fits 64 bits, as it does in memory.
- Publication.CrashSafe: assumes a publishable target manifest, as the node supplies; the strict check refuses others.
