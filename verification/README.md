# addrindexrs, modelled and proved in Dafny

addrindexrs keeps an index of Bitcoin outputs and inputs, by script hash, in step with a node whose chain
grows, reorganises and shrinks. This project models the parts whose correctness is not visible from one
function: the header list, incremental indexing with crashes and restarts, the bulk import by several
threads, the mempool index, the queries that join on 8-byte prefixes, and the block-txids cache.

`dafny verify dfyconfig.toml` checks everything.

## What is abstract

- **Hashes.** Headers are hashed by an arbitrary function that the header tree carries. The tree stores every
  header under its own hash, so no two of its headers collide and none hashes to the null hash. Transaction ids
  and script hashes are carried by the transactions, since only their bytes reach the index.
- **The node.** A finite tree of all headers that occur in a run, each with the height the node reports, plus the
  transactions of every block. Any block of the tree may become the best block between two updates; during one
  update the node does not change.
- **RocksDB.** An ordered map from byte keys to byte values with atomic batches. A crash keeps the effect of any
  prefix of the batches written so far. Writes run without a log even after bulk import, because
  `enable_compaction` changes a copy of the options only (src/store.rs:86-95), so this covers both phases.
- **Panics.** A failed assertion, `unwrap`, `expect`, index or slice is the outcome `Panic`, apart from the error
  return `Err`. No input of a modelled entry point is excluded because it would panic.
- **Block bytes.** The deserialiser of blocks is an arbitrary partial function from bytes. A block read from a file
  or fetched from the node has the header and transactions that the tree and the archive hold for its hash.
- **Collections.** Where the code iterates over a hash set or hash map, any order is allowed. The `lru` map is the
  sequence of its entries, most recently used first; getting and putting move an entry to the front. Queries take the
  contents of a store as a value.
- **Threads.** The bulk import and the cache are state machines over atomic steps, with every interleaving allowed.

## Reading order

| files | content |
|---|---|
| `ByteKeys`, `Rows`, `Store` | byte strings and their order, row layout, batches and scans |
| `Chain`, `HeaderChain`, `Daemon`, `HeaderSync` | header tree, header list, header downloads, the list follows the node |
| `Indexing`, `BlockStore`, `Reload` | rows of a block, what the database holds, rebuilding the header list |
| `IndexRun`, `CrashRuns`, `IndexUpdate` | writing a branch, runs with crashes, `Index::update` itself |
| `Mempool` | the counted multimap and the tracker |
| `TxStore`, `Query`, `Utxos`, `Oldest`, `Served` | scans, joins, unspent outputs, oldest entry, and why both stores qualify |
| `BlockFiles`, `BulkIndex`, `BulkPipeline`, `BulkProgress`, `BulkFinish` | block files, one file, the protocol, its progress, its end |
| `Cache`, `CachedCalls` | the LRU cache and concurrent calls through it |
| `TwoBranches`, `Counterexamples` | a concrete node with two branches, and inputs on which the code falls short |

## Where the code does less than one might expect

- `Status::oldest` forgets an earlier entry when an entry of height 0 follows it (`Oldest.OldestForgets`). So a pending
  spend makes it answer with height 0 (`Counterexamples.PendingSpendHidesAge`).
  `Oldest.OldestIsEarliest` gives the exact condition under which it returns the earliest confirmed entry.
- The UTXO query looks for the spender of a mempool-only output in the mempool alone. `Utxos.UtxosExact` gives the
  exact condition under which the reply is the set of unspent outputs, `Counterexamples.ReplyListsSpent` stores where
  it is not. Runs of updates never reach such stores when blocks spend only what exists (`Served.UtxosAfterRun`). That
  needs the indexed blocks to be closed under ancestors, which a bulk import promises only if it covers the chain
  (`BulkFinish.ImportCloses`).
- `find_spending_input` asserts that there is at most one spender. `Query.SpenderUnique` says exactly when it fails;
  conflicting transactions of abandoned blocks count, because their rows are never deleted (TODO.md:4) and their
  height is 0. So a reorganisation between branches with conflicting transactions is enough
  (`Counterexamples.ReorganisationPanics`).
- A bulk import resumed after one on another branch can leave a T row naming an abandoned block
  (`Counterexamples.ResumedImportMisnames`). `BulkFinish.ImportNamed` says exactly when it does not.
- `get_all_headers` panics when the tip is not on the active chain but not above it (`Daemon.GetAllHeaders`,
  `Counterexamples.RightTipPanics`).
- On a faithful database `read_indexed_headers` panics exactly when `L` names a block that is not stored with all its
  ancestors (`Reload.ReloadNeedsAncestors`, `Counterexamples.MissingRootPanics`).
- `parse_blocks` panics on a last body that is cut off after its version (`BlockFiles.CutBodyPanics`), and only on a
  cut body (`BlockFiles.ParseExact`).
- doc/schema.md shows no value for the `T` row and no `L` or `F` row. The model follows the code: the value of a `T` row
  is a block hash, and both other rows exist.

## Model

| member | source | states |
|---|---|---|
| Chain.Tree.PathShape | src/util.rs:185-193 | the entry at position i of a genesis-to-block path has height i, names its parent, and ends its own path, so a block hash determines its height |
| Chain.PathUnique | src/daemon.rs:544-549 | a null-rooted, hash-linked chain of the tree's headers is the one path to its last block |
| HeaderChain.CheckConsecutive | src/util.rs:135-142 | the first assertion loop passes exactly on entries of consecutive heights that name each other as parent |
| HeaderChain.HeaderList.PushAll | src/util.rs:175-180 | once the new entries are consecutive and connect, the two assertions inside the push loop never fail |
| HeaderChain.HeaderList.Apply | src/util.rs:128-183 | apply passes all its assertions exactly when: a null tip comes with no entries; or no entries come and the tip is in the list; or the entries are consecutive, end at the tip and connect to the list. It then keeps the old prefix, appends the entries and records their heights, leaving stale map entries |
| HeaderChain.ApplyExact | src/util.rs:128-183 | apply passes all its assertions if and only if some prefix of the list followed by the new entries is numbered and linked from genesis on and ends at the tip, and then that is what it leaves |
| HeaderChain.OrderExact | src/util.rs:73-126 | order accepts headers if and only if they link up with each other and, numbered from some height on, with the list below that height, and then numbers them from there |
| Daemon.GetBlockHeaders | src/daemon.rs:426-438 | the headers at these heights of the active chain, or an error past its end |
| Daemon.CheckLinks | src/daemon.rs:544-549 | on a prefix of the active chain no link check fails and the last hash is the one at that height |
| Daemon.GetAllHeaders | src/daemon.rs:526-551 | the headers of the path to the tip exactly when the tip is on the active chain; an error when the tip is unknown or above the best block; otherwise a panic |
| Daemon.GetNewHeaders | src/daemon.rs:554-584 | with a known tip and a non-empty list the walk back never fails and returns the headers above the first known ancestor, oldest first; an unknown tip that is not in the list is an error; an empty list downloads everything |
| HeaderSync.LookupIsSearch | src/util.rs:185-193 | with stale map entries included, lookup by hash agrees with a linear search and succeeds exactly for blocks on the path to the tip |
| HeaderSync.SyncedIsListed | src/util.rs:90-93 | the list of every run meets the conditions of `ApplyExact` and `OrderExact` |
| HeaderSync.HeightsArePositions | src/util.rs:195-200 | lookup by height never fails its assertion and returns the entry at that position |
| HeaderSync.FoundAtHeight | src/util.rs:195-200 | whatever the list holds, an entry found by height is one of the list and has that height |
| HeaderSync.EqualsIsListEquality | src/util.rs:202-204 | comparing the last entries decides equality of the whole lists |
| HeaderSync.WalkBackIsBranch | src/daemon.rs:568-583 | the walk back yields exactly the headers of the path above the fork |
| HeaderSync.OrderedBranch | src/util.rs:102-126 | order turns the headers of a branch back into the path's entries, with the right heights and hashes |
| HeaderSync.AppliedBranch | src/util.rs:128-183 | apply accepts a branch over a shared prefix and leaves the path to the tip |
| HeaderSync.NewEntriesAreBranch | src/index.rs:375-378 | the entries an update hands on are the path to the tip above the fork |
| HeaderSync.SyncStep | src/util.rs:102-183 | for every tip, fetch, order and apply succeed exactly when the tip is known (on an empty list: on the active chain) and then leave exactly the genesis-to-tip path |
| HeaderSync.RunFollowsNode | src/index.rs:371-426 | however the best block moves through the tree, no sequence of updates panics and the list ends as the path to the last best block |
| Rows.InputRoundTrip | src/index.rs:41-72 | input rows decode to what was encoded |
| Rows.InputFilterMatches | src/index.rs:53-60 | the input filter is a byte prefix of a row key exactly when txid prefix and output index modulo 65536 match |
| Rows.OutputRoundTrip | src/index.rs:93-123 | output rows decode to what was encoded |
| Rows.OutputFilterMatches | src/index.rs:105-111 | the output filter is a byte prefix of a row key exactly when the script hash prefixes match |
| Rows.TxRoundTrip | src/index.rs:143-175 | transaction rows decode to what was encoded |
| Rows.TxFilterMatches | src/index.rs:154-156 | the transaction filter is a byte prefix of a row key exactly when the txid has that prefix |
| Rows.HeaderRoundTrip | src/index.rs:235-235 | the 80 header bytes of a B row decode to the header |
| Rows.KindsDisjoint | src/index.rs:25-184 | no two kinds of rows share a key, the markers L and F included |
| Rows.InputLayout | src/index.rs:25-67 | byte by byte: code, transaction prefix and little-endian index of the output spent, prefix of the spender |
| Rows.OutputLayout | src/index.rs:77-118 | byte by byte: code, script prefix, transaction prefix, little-endian output index |
| Rows.HashLayout | src/index.rs:128-165 | T and B keys are the code and the full hash; the B value is version, parent and the other 44 bytes of the header |
| Rows.Codes | src/index.rs:41-250 | the code of each kind of row is the letter of the schema |
| Store.PutAllAt | src/store.rs:172-181 | after a batch a key holds one of the batch's values for it, or its old value if the batch does not put it |
| Store.DBStore.Write | src/store.rs:172-181 | the whole batch takes effect in order |
| Store.ScanStops | src/store.rs:150-165 | stopping at the first key without the prefix loses no key |
| Store.DBStore.Scan | src/store.rs:150-165 | a scan returns exactly the rows whose key has the prefix, in lexicographic order |
| Indexing.TransactionRows | src/index.rs:200-221 | which rows a transaction has: spends and payments without a value, and one row naming the block |
| Indexing.TransactionRowCount | src/index.rs:200-221 | how often: a row occurs exactly once for each non-coinbase input, each output and the transaction itself that gives it |
| Indexing.BlockRows | src/index.rs:226-242 | every row of a block has one of the block's keys; T rows name the block, the B row holds its header, no row is the L row |
| Indexing.BlockKeysWritten | src/index.rs:226-242 | the keys written for a block are exactly its own |
| BlockStore.PutBlocksAt | src/store.rs:172-181 | writing whole blocks in any row order changes exactly the keys of these blocks, to a value of one of them |
| BlockStore.PutBlocksFaithful | src/index.rs:226-242 | writing whole blocks in any row order keeps the database faithful (keys, headers and T rows all accounted for by indexed blocks) and adds exactly these blocks |
| Reload.ReadIndexedHeaders | src/index.rs:270-319 | the loop terminates on every store and computes the specified outcome |
| Reload.TraceIsPath | src/index.rs:285-297 | draining the header map from a stored block yields exactly its path |
| Reload.ReloadReturnsPath | src/index.rs:270-319 | when the database is faithful and L is stored with its ancestors, reload finds every header, passes both assertions and returns exactly the path to L |
| Reload.ReloadSound | src/index.rs:270-319 | whatever the store holds, a list that is returned is a hash-linked chain from a genesis block to L |
| Reload.ReloadNeedsAncestors | src/index.rs:289-295 | on a faithful database whose L, if present, names a block of the tree, reload succeeds if and only if that block is stored with all its ancestors |
| IndexRun.BatchIsBlocks | src/index.rs:412-418 | a batch has the effect of its blocks one by one, each followed by its L row |
| IndexRun.WriteBlockGood | src/index.rs:226-253 | writing a block over its stored ancestors keeps the database faithful with the path below stored, and moves L to the block |
| IndexRun.BranchWritten | src/index.rs:400-419 | every block boundary while a branch is written is consistent and has the last written block as L |
| IndexRun.BranchNamed | src/index.rs:400-419 | while a branch is written, a transaction named by its block as far as the fork stays so as far as the last block, unless a block above holds it again |
| IndexRun.BranchClosed | src/index.rs:400-419 | and every indexed block, of whatever branch, stays stored with all its ancestors |
| CrashRuns.UpdateKeeps | src/index.rs:371-426 | an update of any system satisfying the invariant does not panic, keeps every batch boundary consistent, and ends with the path to the best block, which lies on the path to L |
| CrashRuns.UpdateIndexes | src/index.rs:371-426 | an update indexes its tip and forgets no block, abandoned ones included |
| CrashRuns.RestartKeeps | src/index.rs:332-343 | from any surviving batch boundary a restart rebuilds the path to that boundary's L |
| CrashRuns.RunKeeps | src/index.rs:332-426 | over every run of updates and crashes, from any system satisfying the invariant, nothing panics, every batch boundary stays consistent and the list's tip stays on the path to L |
| CrashRuns.TransactionsNamed | src/index.rs:143-175 | at every batch boundary of every run from an empty database, a transaction on the path to L has a T row naming its own block, if no block above that one holds the txid again |
| CrashRuns.RunNames | src/index.rs:143-175 | and from any system satisfying the invariant: what its block names to start with, it names throughout |
| CrashRuns.RunCloses | src/index.rs:371-426 | over every run the indexed blocks stay closed under ancestors |
| CrashRuns.EveryPrefixReloads | src/index.rs:270-319 | at every batch boundary of every run reload returns exactly the path to L |
| IndexUpdate.FetchEntries | src/index.rs:375-378 | fetching and ordering against the node gives the specified entries |
| IndexUpdate.Index.WriteBatches | src/index.rs:389-419 | it succeeds exactly when the polls outnumber the batches; stopped before, it has written the first polls times batch size blocks, in order; it panics exactly with a batch size of 0 that the waiter does not stop first, having written nothing |
| IndexUpdate.EnoughIsMoreThanBatches | src/index.rs:389-407 | enough polls are more than the number of blocks divided by the batch size, rounded up |
| IndexUpdate.Index.Update | src/index.rs:371-426 | update writes the branch and applies it exactly when the tip can be fetched and the polls outnumber the batches of the branch; otherwise it stops with the list unchanged and a prefix of the branch written, or, when the tip cannot be fetched, changes nothing; it panics exactly when the tip can be fetched, the batch size is 0 and the waiter does not stop it at once |
| IndexUpdate.UpdateRefinesStep | src/index.rs:371-426 | the method refines the steps of the run theorems: success is the completed step, anything else leaves the last store of an interrupted one |
| IndexUpdate.WrittenConsistent | src/index.rs:400-421 | stopped or complete, an update leaves the store consistent with L at the last block written |
| Mempool.MempoolStore.Add | src/mempool.rs:29-35 | pushes one value per row of the transaction |
| Mempool.MempoolStore.Remove | src/mempool.rs:37-63 | panics exactly when some row finds no key, no value or another value, and otherwise pops one value per row |
| Mempool.MempoolStore.Scan | src/mempool.rs:71-88 | returns exactly the rows with the prefix, in lexicographic order, each with its last value |
| Mempool.AddTracks | src/mempool.rs:144-147 | adding a transaction turns the index of a tracked set into the index of the larger set |
| Mempool.RemoveUntracks | src/mempool.rs:149-155 | removing a tracked transaction never panics, whatever keys are shared, and gives the index of the smaller set |
| Mempool.RemoveInvertsAdd | src/mempool.rs:37-63 | removing a row succeeds exactly when the index is one to which that row was added last, and undoes that; it panics exactly when there is no such index |
| Mempool.IndexCounts | src/mempool.rs:29-63 | each key holds one value per row of a tracked transaction with that key, all equal, and no list is empty |
| Mempool.ReaderSees | src/mempool.rs:67-69 | a reader finds exactly the keys of the tracked transactions, T rows with the null hash |
| Mempool.Tracker.Update | src/mempool.rs:111-142 | the index always equals that of the tracked set; a failed listing or fetch changes nothing, otherwise exactly the reported transactions are tracked, and the only panic is a wrong answer of the node |
| TxStore.TxRowsFound | src/query.rs:123-133 | every row found for a prefix belongs to a stored txid with that prefix and names its recorded block; rows come in key order, no txid twice; no row fails to decode |
| TxStore.TxRowFound | src/query.rs:123-133 | and every stored transaction is found under its prefix |
| TxStore.OutputRowsFound | src/query.rs:135-145 | every row found for a script is that of a stored output with its prefix, in key order, each pair of txid prefix and truncated index once |
| TxStore.OutputRowFound | src/query.rs:135-145 | and every stored output with the script's prefix is found |
| TxStore.SpendersFound | src/query.rs:147-158 | every prefix found for an outpoint is that of a stored transaction with a matching truncated input, each once |
| TxStore.SpenderFound | src/query.rs:147-158 | and every stored transaction with a matching truncated input is found |
| Query.FindFundingOutputs | src/query.rs:226-257 | the nested loops compute the specified join |
| Query.FundingFound | src/query.rs:226-257 | with no hypothesis on prefixes the query succeeds and lists each joined pair exactly once |
| Query.FundingComplete | src/query.rs:226-257 | every stored output paying the script within the height bound is listed, with its index modulo 65536 |
| Query.FundingExact | src/query.rs:226-257 | with collision-free prefixes and indices below 65536 exactly the outputs paying the script are listed, each once |
| Query.FundingOrdered | src/query.rs:226-257 | the outputs come in the order of the database, by output row and for one row by transaction row |
| Query.FindSpendingInput | src/query.rs:190-224 | the loop and the assertion compute the specified outcome |
| Query.SpendingExact | src/query.rs:190-224 | the at-most-one assertion fails exactly when two stored transactions are candidates; otherwise the only candidate, if any, is returned |
| Query.SpenderUnique | src/query.rs:190-224 | when prefixes and truncated outpoints are unambiguous and the output is not the null one, the assertion fails exactly when two stored transactions within the bound spend the output, and otherwise the answer is its spender if it has one |
| Utxos.StatusExact | src/query.rs:259-326 | for every bound and limit and with no hypothesis on prefixes: an error exactly when a side reached without a panic has more joined outputs than a limit in use that is not 0; a panic exactly when an output reached without an error has two candidate spenders in a store where it is looked up; otherwise each joined output once in key order, and for each output that has a candidate spender one report, in the order of the outputs |
| Utxos.StatusClean | src/query.rs:259-326 | when nothing collides, for every bound and limit: an error exactly when one side has more paying outputs than the limit, and otherwise the outputs paying the script within the bound, each once in key order, and their spenders, in the order of the outputs |
| Utxos.GetUtxos | src/rpc.rs:105-124 | asked with the bound 9999999999 and no limit, the reply lists, each once, the funding outpoints that no reported spending input names; it is never an error |
| Utxos.UtxosListed | src/query.rs:259-326 | when prefixes and truncated outpoints are unambiguous, no output of the script is spent twice within one store and no height exceeds 9999999999: the query does not panic and lists the outputs paid by some transaction minus exactly the spends it looks up, with no height in the statement |
| Utxos.ListedWithin | src/query.rs:259-326 | the same for header lists of any length: only heights up to 9999999999 count |
| Utxos.UtxosPanic | src/rpc.rs:105-124 | with no hypothesis on prefixes the query panics exactly when some joined output has two candidate spenders in a store where it is looked up |
| Utxos.UtxosExact | src/rpc.rs:105-124 | under the conditions of `UtxosListed` the reply is the set of outputs that some transaction pays to the script and none has among its inputs, if and only if every mempool-only output with a database spender also has a mempool spender |
| Served.DatabaseServes | src/index.rs:226-242 | a faithful database serves exactly the transactions of its indexed blocks, abandoned ones included |
| Served.MempoolServes | src/mempool.rs:66-89 | the mempool index serves exactly the tracked transactions |
| Served.MempoolHeight | src/query.rs:203-206 | with any header list that is a path of the tree, the height looked up through the mempool index is 0 |
| Served.ConfirmedHeight | src/query.rs:241-244 | in any system satisfying the run invariant a transaction confirmed in the header list and named by its block is reported at that block's height |
| Served.ConfirmedAfterRun | src/query.rs:241-244 | so after every run from an empty database a confirmed transaction is reported at the height of its own block, if no block above that one holds the txid again |
| Served.UtxosAfterRun | src/rpc.rs:105-124 | after every run, from an empty database or any other one closed under ancestors, and with any tracked mempool, the reply is exactly the outputs that some indexed or tracked transaction pays to the script and none of either has among its inputs, when nothing collides, a txid determines its transaction, blocks spend only outputs of their own or lower blocks, and the chain has at most 9999999999 blocks |
| Served.PoolOutputsUnspent | src/query.rs:286-314 | the step behind it: on a database closed under ancestors an output paid in the mempool and spent in the database is paid in the database too, so its spender is looked up there |
| Oldest.OldestEntry | src/query.rs:69-99 | the two loops compute the answer that the following rows describe |
| Oldest.PickedIsBest | src/query.rs:69-99 | the answer is the first least-height entry after the last zero height, or the first of the trailing zeros |
| Oldest.OldestIsEarliest | src/query.rs:69-99 | the answer is the earliest confirmed entry if and only if no zero height comes after that entry |
| Oldest.EarliestOfField | src/query.rs:47-99 | field by field: the earliest confirmed entry, among confirmed or mempool funding or spending entries, is the answer if and only if no height 0 comes later in its field or in a later one |
| Oldest.PendingSpendIsAnswer | src/query.rs:84-95 | while mempool spenders of height 0 are reported, the answer has height 0; it is the first of them when the entry before it is confirmed |
| Oldest.ConfirmedOnly | src/query.rs:69-99 | with nothing in the mempool and everything confirmed, the answer has the least height of all |
| Oldest.OldestForgets | src/query.rs:69-99 | funded at height 5, funded again in the mempool and spent at height 7: the answer is height 7 |
| BlockFiles.ParseBlocks | src/bulk.rs:87-131 | the cursor loop terminates on every input and computes the outcome that `ParseExact` describes |
| BlockFiles.ParseExact | src/bulk.rs:87-131 | on every input: blocks exactly when the cursor, moving over bytes, body-less headers and decodable records, comes to the end, and then the blocks it passed; an error exactly when it comes to a cut size field or a body in the file that does not decode; a panic exactly when it comes to a body that has begun and reaches past the end |
| BlockFiles.ParseUndoesLayout | src/bulk.rs:87-131 | any sequence of zero padding, full records, and body-less records that a record or the end follows, parses to exactly the full blocks in order (magic not starting with a zero byte) |
| BlockFiles.ParseContinues | src/bulk.rs:87-131 | a well-formed file followed by any bytes starting with a record yields its blocks, then whatever outcome those bytes have |
| BlockFiles.CutBodyPanics | src/bulk.rs:111-124 | a file whose last body is cut off panics exactly when at least four bytes of the body are there; with fewer the record is dropped and the blocks before it are returned |
| BlockFiles.TestMagic | src/bulk.rs:274-278 | numbers are little-endian, as the magic of the test network shows |
| BulkIndex.ClaimsExact | src/bulk.rs:66-77 | a file claims each of its current-chain blocks that was not indexed before exactly once |
| BulkIndex.Parser.IndexBlkFile | src/bulk.rs:62-81 | the result is the rows of the claimed blocks, sorted, each as often as it was collected, and the shared set grows by these blocks; a file that does not parse is the same error or panic and changes nothing |
| BulkIndex.Parser.LastIndexedRow | src/bulk.rs:44-55 | the L row names the last of the leading indexed headers; with none it panics |
| BulkIndex.ReadIndexedBlockhashes | src/index.rs:258-265 | the scan collects the hash of every B row |
| BulkIndex.IndexedIsRead | src/index.rs:258-265 | from a faithful database that set is exactly the set of indexed blocks |
| BulkPipeline.StepConserves | src/bulk.rs:62-81 | in every step a block claimed in this import is held exactly once by a thread, by the writer or as written, and no other block is |
| BulkPipeline.RunInvariant | src/bulk.rs:171-262 | every interleaving keeps conservation, coverage of the files handed out, and a store determined by the written blocks |
| BulkPipeline.FinishedExactlyOnce | src/bulk.rs:171-262 | a finished import has written exactly the wanted blocks, each once, and the database indexes exactly these and the prior ones |
| BulkPipeline.FinishedKeys | src/bulk.rs:240-247 | the final keys are the prior ones and those of the wanted blocks |
| BulkPipeline.InterleavingsAgree | src/bulk.rs:171-262 | any two finished interleavings, with any numbers of threads, end with the same database if no txid occurs in two wanted blocks |
| BulkProgress.StepPaysOne | src/bulk.rs:171-262 | every enabled step reduces the number of steps owed by exactly one |
| BulkProgress.NeverStuck | src/bulk.rs:171-262 | with at least one indexer thread some step is enabled until the import has finished |
| BulkProgress.RunLength | src/bulk.rs:171-262 | an interleaving has finished exactly when it has taken one step per block and three per file, whatever the order and the number of threads |
| BulkProgress.CanFinish | src/bulk.rs:171-262 | with at least one indexer thread every started import can be run to its end |
| BulkFinish.CrashedImportReloads | src/bulk.rs:240-247 | a crash at any point of an import leaves a database that reloads to the path of the old L |
| BulkFinish.FinalFaithful | src/bulk.rs:260-260 | the final write panics exactly when the first header of the current chain is not indexed; otherwise the database stays faithful with the same indexed blocks and L names the last leading indexed header |
| BulkFinish.FinalLast | src/bulk.rs:44-55 | L is the highest header of the current chain stored with all its ancestors |
| BulkFinish.FinalReloads | src/index.rs:345-348 | the finished database reloads to the leading indexed headers of the current chain |
| BulkFinish.ImportNames | src/bulk.rs:66-77 | a transaction that occurs once on the current chain is named by its block exactly when this import wrote the block or the block named it before |
| BulkFinish.ImportNamed | src/bulk.rs:171-262 | over whatever prior database, when no txid repeats on a path: the finished database names every transaction on the path to L by its own block if and only if the prior one did so for the blocks of that path it had indexed already |
| BulkFinish.SameChainNamed | src/bulk.rs:171-262 | which it does when all blocks indexed before are on the current chain: an import into an empty database, or one resumed on the same chain |
| BulkFinish.OtherChainMisnames | src/bulk.rs:66-77 | an import of h, then of another branch's g with the same transaction, then again on the chain of h: the T row goes on naming g |
| BulkFinish.ImportStartsRuns | src/bin/addrindexrs.rs:49-62 | a finished import over whatever faithful database hands over a system satisfying the invariant that every later run keeps, so no later run panics |
| BulkFinish.ImportThenNames | src/bin/addrindexrs.rs:49-62 | throughout every later run a transaction once on the chain and not above its block is named by that block, if the import wrote the block or it was so named before |
| BulkFinish.ImportCloses | src/bulk.rs:171-262 | an import that indexes the whole current chain leaves the indexed blocks closed under ancestors, if those indexed before are on the chain or were stored with theirs |
| BulkFinish.CompactionKeeps | src/store.rs:200-212 | the compaction marker leaves a consistent database consistent with the same L |
| Cache.FittingLongest | src/cache.rs:42-47 | eviction leaves a run of most recently used entries within capacity, and no longer run fits |
| Cache.PutExact | src/cache.rs:33-48 | too large a value changes nothing; otherwise the new entry is followed by a prefix of the old entries of other keys in their order, which fit together with it, and with any longer prefix they would not |
| Cache.TouchExact | src/cache.rs:26-31 | a hit moves its entry to the front and keeps the order of the others; a miss changes nothing |
| Cache.PutKeeps | src/cache.rs:33-48 | an accepted put has the new entry in front, keeps only old entries of other keys, no key twice, and stays within capacity |
| Cache.SizedLruCache.Get | src/cache.rs:26-31 | a hit returns the stored value and only changes recency |
| Cache.SizedLruCache.Put | src/cache.rs:33-48 | the entries are those of `PutExact`; bytes in use always equal the sum of stored sizes, never underflow and never exceed capacity |
| CachedCalls.StepCoherent | src/cache.rs:65-84 | every atomic step of any call keeps all cached and loaded values equal to the loader's |
| CachedCalls.CallsAreTransparent | src/cache.rs:65-84 | in every interleaving each successful call returns the loader's value for its block, and cached and loaded values are the loader's |
| CachedCalls.CallOutcome | src/cache.rs:65-84 | in every interleaving a call has returned an error if and only if its own load failed while it waited for one, and a call that has returned anything else has returned the loader's value |
| CachedCalls.CallCompletes | src/cache.rs:65-84 | a call that arrived and was then looked up, loaded without failure and inserted, with any steps of other calls in between, has returned the loader's value for the block it asked for |
| CachedCalls.SecondCallHits | src/cache.rs:73-83 | once a value that fits is inserted, a later call for the block returns it at its lookup, without loading, as long as nothing else was inserted in between |
| CachedCalls.LookUpTouches | src/cache.rs:73-75 | a hit makes the block the most recently used one |
| CachedCalls.MemoryBounded | src/cache.rs:77-82 | in every interleaving 32 bytes for each cached block hash and txid stay within the capacity |
| Counterexamples.RightTipPanics | src/daemon.rs:526-551 | on a node with two blocks over one root, asking for all headers up to the block that is not the best one panics |
| Counterexamples.LoneBlockReloads | src/index.rs:289-295 | a database with one block and its L row reloads if and only if that block has no parent |
| Counterexamples.MissingRootPanics | src/index.rs:289-295 | so the left block without the root does not reload |
| Counterexamples.TwoSpendersPanic | src/query.rs:190-224 | in every system satisfying the run invariant, two indexed blocks, abandoned or not, with different transactions spending one output make the at-most-one assertion fail |
| Counterexamples.ReorganisationPanics | src/query.rs:217-217 | an update to one block and then to another with a conflicting transaction reaches such a system |
| Counterexamples.BranchesPanic | src/query.rs:217-217 | as the two-branch node shows |
| Counterexamples.ReplyListsSpent | src/rpc.rs:105-124 | stores meeting every condition of `UtxosExact` where the reply lists a spent output: the database has indexed the spend without the block of its output, which the mempool tracks |
| Counterexamples.PendingSpendHidesAge | src/query.rs:69-99 | in every system satisfying the run invariant and with any tracked mempool, as soon as a tracked spender of the script is reported the oldest entry has height 0 |
| Counterexamples.ResumedImportMisnames | src/bulk.rs:66-77 | import the left branch, crash, import the right one, crash, import on the left again: L is the left block, the T row of a transaction in both names the right one, and its height is reported as 0 instead of 1 |

## Left out

- Network code, JSON-RPC, retries, cookies and the RPC server (src/daemon.rs:1-525 apart from the calls above, src/rpc.rs apart from the UTXO reply): no logic of the index.
- SHA-256, transaction ids and block deserialisation: replaced as described under "What is abstract".
- `Status::history`, `oldest_tx` and the block header subscription: they would only add easy members.
- The text form of an outpoint in the UTXO reply (hex, colon, decimal): outpoints are compared as pairs.
- `ScanIterator` and RocksDB options: not used by the modelled reads and writes.
- A parse error or a failed file read during bulk import: it ends one thread and the import then writes no `L` row, which the theorems cover as a run that stops; the surviving threads' further steps are ordinary steps.
- Overflow of 64-bit sizes and heights: numbers are unbounded.
- CrashRuns.TransactionsNamed: for a txid that a block above holds again, the T row names some indexed block containing it (part of `BlockStore.PutBlocksFaithful`), not a particular one.
- Served.UtxosAfterRun: assumes that blocks spend only outputs of their own or lower blocks, which the node checks and the indexer does not.
