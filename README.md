# NBitcoin.Indexer block and transaction import, modelled in Dafny

The indexer copies the local Bitcoin block store to Azure storage through two pipelines. Each pipeline resumes from a checkpoint file.

- **Block pipeline** (`StartBlockImportToAzure`)
  - It puts every stored block on a work queue in store order.
  - Workers upload each block as a page blob, zero-padded to a multiple of 512 bytes.
- **Transaction pipeline** (`StartTransactionImportToAzure`)
  - It turns every transaction of every block into an `IndexedTransaction` table entity.
  - The entity's partition key is derived from bytes 0 and 1 of the transaction id. Its row key is the transaction id plus either `-m` (mempool) or `-b<block id>` (confirmed).
  - Entities are grouped into per-partition buckets. A bucket goes onto the work queue as one batch when it reaches 100 entries.
  - Every bucket is flushed at each checkpoint and at the end.

In both pipelines a checkpoint does three things:
1. It drains the queue.
2. It writes the current block position to the pipeline's progress file.
3. The next run resumes from that position, or from `(0,0)` when the file is missing or unreadable.

The model covers the deterministic, single-threaded part of this: key derivation, the batcher, both producer loops and the checkpoint helpers. The work queue is an append-only trace of events. Both pipelines have an `Enqueue` event (one block, or one batch of entries), plus `Drain`, `Stop` and `Save`. The stopwatch test "has the save interval passed" is an oracle `elapsed: nat -> bool`:
- In the block pipeline it is indexed by block number.
- In the transaction pipeline it is indexed by the number of transactions read before the current one.

Modules:

- `BlockStore` (`block_store.dfy`)
  - Types: bytes, 256-bit hashes, `DiskBlockPos` as `Cursor`, and stored blocks.
  - Also the ascending-order assumption on the store and the last position read.
- `IndexedTransactions` (`indexed_transaction.dfy`)
  - `CalculateKey`, both as the C# bit-vector expression and as arithmetic.
  - The decimal text of the `Key` property and its parse.
  - Lower-case hex text of a hash.
  - The two constructors.
- `PageBlobs` (`page_blob.dfy`): the 512-byte padding of a serialized block.
- `Checkpoints` (`checkpoint.dfy`)
  - `NormalizeName`, with `Path.GetFileName`.
  - `GetPosition` with its fallback, and `SetPosition`.
  - The progress files are a `map<string, string>`.
- `TransactionTrace` (`transaction_trace.dfy`)
  - The events of the transaction pipeline.
  - The bucket invariant and the conservation of entries.
  - The batching policy: a batch below 100 entries comes only from a flush of every bucket, just before a drain.
  - Which checkpoints a run must take, and what a complete run looks like.
- `TransactionImport` (`transaction_import.dfy`)
  - The class `TransactionProducer`. It holds the bucket map, the trace and `txCount`, and its methods update them in place.
  - Its loops over blocks and transactions.
  - The driver `ImportTransactions`.
- `BlockImport` (`block_import.dfy`)
  - The block producer loop `ImportBlocks`, proved equal to the trace function `BlockRun`.
  - Lemmas about what that trace guarantees.
- `Wrappers` (`wrappers.dfy`): `Option`.

In the transaction pipeline, the save check runs after every transaction. So a checkpoint can be taken in the middle of a block. It saves that block's own position, so a resumed run reads the whole block again. This assumes that the store's enumeration from a position (`store.Enumerate(new DiskBlockPosRange(start))`) starts with the block at that position. The block store is not part of this model. `ExpectedSaves` and `StepSaves` state this exactly: the checkpoint taken after transaction `t` of a block saves the block's position and counts every entry read so far, up to and including that transaction, as enqueued. In the block pipeline, a periodic checkpoint saves the position of the block about to be queued, before that block is queued (`SaveOfBlock`).

## Model

| member | source | states |
|---|---|---|
| IndexedTransactions.KeyExpression | NBitcoin.Indexer/AzureBlockImporter.cs:123 | The 32-bit value of `(GetByte(0) & 0xE0) + (GetByte(1) << 8)` before the cast. `KeyExpressionValue` states its value and `KeyValueFits` its range. |
| IndexedTransactions.KeyExpressionValue | NBitcoin.Indexer/AzureBlockImporter.cs:123 | The 32-bit expression `(b0 & 0xE0) + (b1 << 8)` equals `32 * (b0 / 32) + 256 * b1`. The mask keeps the top three bits of byte 0, and the shift multiplies byte 1 by 256. |
| IndexedTransactions.KeyValueFits | NBitcoin.Indexer/AzureBlockImporter.cs:123 | That value is in `[0, 65536)`, so the `ushort` cast leaves it unchanged. It is also a multiple of 32. |
| IndexedTransactions.CalculateKey | NBitcoin.Indexer/AzureBlockImporter.cs:121-124 | The key, computed as the expression reduced mod 2^16, equals `32 * (b0 / 32) + 256 * b1`. It depends only on bytes 0 and 1 and is a multiple of 32. |
| IndexedTransactions.SameKeyIff | NBitcoin.Indexer/AzureBlockImporter.cs:121-124 | Two ids share a partition key if and only if they agree on byte 1 and on the top three bits of byte 0. |
| IndexedTransactions.KeySpaceIsExact | NBitcoin.Indexer/AzureBlockImporter.cs:121-124 | Every key lies among the multiples of 32 below 65536. Every such multiple is the key of some id. There are exactly 2048 of them. |
| IndexedTransactions.KeyExample | NBitcoin.Indexer/AzureBlockImporter.cs:121-124 | Bytes `0x3F, 0x01` give key `0x120`, whose decimal text is `"288"`. |
| IndexedTransactions.DecimalString | NBitcoin.Indexer/AzureBlockImporter.cs:139 | `value.ToString()` is a non-empty digit string with no leading zero, unless it is `"0"`. |
| IndexedTransactions.DecimalValueOfString | NBitcoin.Indexer/AzureBlockImporter.cs:134-139 | Reading the digits of `n.ToString()` gives back `n`. |
| IndexedTransactions.ParseUShort | NBitcoin.Indexer/AzureBlockImporter.cs:134 | `ushort.Parse`: the value of a non-empty digit string below 65536, and `None` (the exception) otherwise. `ParseDecimalRoundTrip` states that it reads back every key's decimal text. |
| IndexedTransactions.ParseDecimalRoundTrip | NBitcoin.Indexer/AzureBlockImporter.cs:129-142 | `ushort.Parse(v.ToString()) == v` for every `ushort`. The `Key` getter therefore returns what the setter stored. |
| IndexedTransactions.DecimalStringInjective | NBitcoin.Indexer/AzureBlockImporter.cs:137-141 | Two keys have the same partition-key text if and only if they are equal. |
| IndexedTransactions.ToHexInjective | NBitcoin.Indexer/AzureBlockImporter.cs:113-118 | Two hashes have the same 64-character hex text if and only if they are equal. |
| IndexedTransactions.ToHex | NBitcoin.Indexer/AzureBlockImporter.cs:110-119 | `uint256.ToString` as 64 hex characters. `ToHexInjective` states that distinct ids have distinct texts. |
| IndexedTransactions.Key | NBitcoin.Indexer/AzureBlockImporter.cs:131-136 | The `Key` getter parses the partition-key text. `ParseDecimalRoundTrip` and `SetKey` state that it returns the value last set. |
| IndexedTransactions.SetKey | NBitcoin.Indexer/AzureBlockImporter.cs:137-141 | The `Key` setter stores `value.ToString()` as the partition-key text. The getter then gives the value set, and the row key is unchanged. |
| IndexedTransactions.MempoolEntry | NBitcoin.Indexer/AzureBlockImporter.cs:110-114 | The mempool entity's key is `CalculateKey(txId)`, stored as its decimal text. Its row key is the hex id followed by `-m`. |
| IndexedTransactions.ConfirmedEntry | NBitcoin.Indexer/AzureBlockImporter.cs:115-119 | The confirmed entity's key is `CalculateKey(txId)`, stored as its decimal text. Its row key is the hex id, `-b`, then the hex block id. |
| IndexedTransactions.ConfirmedRowKeyInjective | NBitcoin.Indexer/AzureBlockImporter.cs:115-119 | Two confirmed row keys are equal if and only if both the transaction and the block are equal. So one transaction in two blocks gets two rows. |
| IndexedTransactions.MempoolRowKeyNotConfirmed | NBitcoin.Indexer/AzureBlockImporter.cs:110-119 | A mempool row key never equals a confirmed row key. |
| IndexedTransactions.PartitionIndependentOfBlock | NBitcoin.Indexer/AzureBlockImporter.cs:110-119 | Both constructors give one transaction the same partition key, whatever the block. |
| PageBlobs.PaddingLength | NBitcoin.Indexer/AzureBlockImporter.cs:385-387 | The padding is below 512 and brings the length to a multiple of 512. It is 0 exactly when the length is already aligned. |
| PageBlobs.PaddedLength | NBitcoin.Indexer/AzureBlockImporter.cs:385-388 | The padded length is a multiple of 512, is at least the length and is less than the length plus 512. It is unchanged when already aligned. |
| PageBlobs.PaddedLengthIsLeast | NBitcoin.Indexer/AzureBlockImporter.cs:385-388 | No multiple of 512 that is at least the length is smaller than the padded length. |
| PageBlobs.Resize | NBitcoin.Indexer/AzureBlockImporter.cs:388 | `Array.Resize` gives the requested length, keeps the common prefix, and zero-fills the rest. |
| PageBlobs.PageImage | NBitcoin.Indexer/AzureBlockImporter.cs:381-388 | The uploaded buffer has the padded length, a whole number of pages, and starts with the serialized block. |
| PageBlobs.PageImageOfZeroedBuffer | NBitcoin.Indexer/AzureBlockImporter.cs:381-388 | When the stream's buffer is zero beyond its length, the uploaded bytes are the block followed by exactly the padding in zeros. |
| Checkpoints.FileName | NBitcoin.Indexer/AzureBlockImporter.cs:460 | `Path.GetFileName`: the text after the last separator. `FileNameIsLastSegment` and `FileNameAppend` characterise it. |
| Checkpoints.FileNameIsLastSegment | NBitcoin.Indexer/AzureBlockImporter.cs:460 | `Path.GetFileName` is a separator-free suffix of the path. It is either the whole path or starts right after a separator. |
| Checkpoints.FileNameAppend | NBitcoin.Indexer/AzureBlockImporter.cs:460 | Appending separator-free text to a path appends it to the file name. |
| Checkpoints.NormalizeName | NBitcoin.Indexer/AzureBlockImporter.cs:454-464 | The progress file for the unnamed stream, and `name + "-" + GetFileName(name)` otherwise. `NormalizeNameInjective`, `NormalizedFileName`, `NormalizedPrefix` and `TxStreamFile` characterise it. |
| Checkpoints.NormalizedPrefix | NBitcoin.Indexer/AzureBlockImporter.cs:454-464 | A named stream's file starts with the name followed by `-`. |
| Checkpoints.NormalizedFileName | NBitcoin.Indexer/AzureBlockImporter.cs:459-462 | The file name part of `name + "-" + GetFileName(name)` is `GetFileName(name)`, then `-`, then `GetFileName(name)`. |
| Checkpoints.NormalizeNameInjective | NBitcoin.Indexer/AzureBlockImporter.cs:454-464 | Two named streams share a file if and only if their names are equal. |
| Checkpoints.TxStreamFile | NBitcoin.Indexer/AzureBlockImporter.cs:454-464 | The transaction stream's file is `tx-tx`. With the default progress file it is not the block stream's file. |
| Checkpoints.GetPosition | NBitcoin.Indexer/AzureBlockImporter.cs:441-452 | The cursor parsed from the stream's file. It is `(0,0)` when the file is absent or does not parse. |
| Checkpoints.SetPosition | NBitcoin.Indexer/AzureBlockImporter.cs:435-439 | The stream's file (`NormalizeName` of its name) then holds the text of `pos`. Every other file is left as it was, and no file is removed. |
| Checkpoints.SaveThenResume | NBitcoin.Indexer/AzureBlockImporter.cs:435-452 | After a save, the next `GetPosition` of the same stream returns the saved cursor, provided the cursor text round-trips. |
| Checkpoints.ResumeFromLastSave | NBitcoin.Indexer/AzureBlockImporter.cs:435-452 | After a series of saves, the next run resumes from the last cursor saved. |
| Checkpoints.SaveKeepsOtherStreams | NBitcoin.Indexer/AzureBlockImporter.cs:435-464 | Saving one stream's cursor leaves the cursor of every stream with a different file unchanged. |
| TransactionTrace.PendingRemove | NBitcoin.Indexer/AzureBlockImporter.cs:262 | Removing a bucket removes exactly its entries from the pending multiset. |
| TransactionTrace.PendingGrow | NBitcoin.Indexer/AzureBlockImporter.cs:218 | `buckets.Add(key, e)` adds exactly `e` to the pending multiset. |
| TransactionTrace.BucketsGrow | NBitcoin.Indexer/AzureBlockImporter.cs:218-220 | Adding to a map whose buckets are all non-empty, hold one key each and have at most 99 entries leaves only the added key's bucket able to reach 100. |
| TransactionTrace.FlushingStep | NBitcoin.Indexer/AzureBlockImporter.cs:228-231 | Flushing one more key of the snapshot keeps the partial flush-all invariant. |
| TransactionTrace.FlushingDone | NBitcoin.Indexer/AzureBlockImporter.cs:242-245 | When no key is left, the map is empty and every bucket of the snapshot was enqueued once, in some order of its keys. |
| TransactionTrace.AppendSettled | NBitcoin.Indexer/AzureBlockImporter.cs:220-223 | Appending an event that is neither a drain nor a batch below 100 entries (a full bucket of 100, say) keeps the trace settled. |
| TransactionTrace.FlushThenDrain | NBitcoin.Indexer/AzureBlockImporter.cs:228-232 | When every bucket holds at most 99 entries, a flush of every bucket followed by a drain leaves every batch below 100 entries in a run of such batches, one per partition, ending at a drain. Every drain before it is already answered. |
| TransactionTrace.AnswerDrain | NBitcoin.Indexer/AzureBlockImporter.cs:232-233 | A save or a stop right after the drain makes the trace settled again. |
| TransactionTrace.PushKeepsInvariant | NBitcoin.Indexer/AzureBlockImporter.cs:254-264 | Enqueueing a bucket and removing its key keeps the invariant: batches well formed, `txCount` counting the enqueued entries, and added entries equal to enqueued plus pending. |
| TransactionTrace.GrowKeepsInvariant | NBitcoin.Indexer/AzureBlockImporter.cs:217-219 | Adding an entry keeps the conservation invariant, with the grown bucket holding at most 100. |
| TransactionTrace.MarkerKeepsInvariant | NBitcoin.Indexer/AzureBlockImporter.cs:232-233 | Drain, stop and save events leave the producer invariant intact. |
| TransactionTrace.AllEntriesPrefix | NBitcoin.Indexer/AzureBlockImporter.cs:212-217 | The entries of the first `n` blocks are a prefix of all entries read. |
| TransactionTrace.StepSavesMembers | NBitcoin.Indexer/AzureBlockImporter.cs:224-233 | A checkpoint is among a block's checkpoints if and only if some transaction `t` of it had its check answer yes, and the checkpoint is (`first + t + 1`, block position). |
| TransactionTrace.PeriodicSavesMembers | NBitcoin.Indexer/AzureBlockImporter.cs:212-240 | A checkpoint is periodic if and only if it is due for some transaction `t` of some block `b`. It then saves block `b`'s position after all entries up to and including `t` were read. |
| TransactionTrace.ExtendWithoutSave | NBitcoin.Indexer/AzureBlockImporter.cs:218-223 | Events other than saves keep the checkpoints and their soundness. |
| TransactionTrace.AppendSave | NBitcoin.Indexer/AzureBlockImporter.cs:232-233 | A save right after a drain, with every entry read enqueued, adds one sound checkpoint. |
| TransactionTrace.NothingPendingIsFlushed | NBitcoin.Indexer/AzureBlockImporter.cs:228-232 | With nothing pending, the enqueued entries are exactly (as a multiset) the entries read so far. |
| TransactionTrace.FlushedThenDrained | NBitcoin.Indexer/AzureBlockImporter.cs:228-232 | After a flush-all and a drain, the checkpoints are unchanged and still sound. Every entry read is enqueued, and `txCount` counts them. |
| TransactionTrace.StoppedThenSaved | NBitcoin.Indexer/AzureBlockImporter.cs:242-250 | A drain with every entry enqueued, then a stop and a save, complete a run. |
| TransactionTrace.StopThenSaveKeepsBatches | NBitcoin.Indexer/AzureBlockImporter.cs:246-249 | The stop and the final save after the last drain keep the batches well formed and the trace settled. |
| TransactionTrace.SplitPartitionRejected | NBitcoin.Indexer/AzureBlockImporter.cs:218-245 | Two single-entry batches of one partition, flushed together before the final drain, are never a complete run, whatever the entries and the checkpoints. |
| TransactionTrace.TxRunResumesAtLastPosition | NBitcoin.Indexer/AzureBlockImporter.cs:205-249 | Writing all the checkpoints of a transaction run in turn to the `tx` file makes the next run resume at the last block position read. |
| TransactionImport.TransactionProducer.constructor | NBitcoin.Indexer/AzureBlockImporter.cs:208-209 | Starts with empty buckets, an empty queue and `txCount == 0`. |
| TransactionImport.TransactionProducer.PushTransactions | NBitcoin.Indexer/AzureBlockImporter.cs:254-264 | Enqueues the bucket as one non-empty batch and removes exactly that key's bucket (the key of its first entry). Other buckets are unchanged. `txCount` grows by the batch length, and the invariant is kept. |
| TransactionImport.TransactionProducer.AddTransaction | NBitcoin.Indexer/AzureBlockImporter.cs:218-223 | Adds the entry to its bucket. The bucket is enqueued and removed if and only if it then holds exactly 100 entries. Afterwards every bucket holds 1 to 99 entries of one key. |
| TransactionImport.TransactionProducer.FlushAll | NBitcoin.Indexer/AzureBlockImporter.cs:228-231 | Every bucket is enqueued exactly once, in some order of its keys, after the old trace. The map is left empty. |
| TransactionImport.TransactionProducer.WaitProcessed | NBitcoin.Indexer/AzureBlockImporter.cs:356-362 | Appends a drain event and nothing else. |
| TransactionImport.TransactionProducer.StopWorkers | NBitcoin.Indexer/AzureBlockImporter.cs:247-248 | Appends a stop event and nothing else. |
| TransactionImport.TransactionProducer.SetPosition | NBitcoin.Indexer/AzureBlockImporter.cs:233 | Appends the save of `position` and nothing else. |
| TransactionImport.TransactionProducer.AddToRun | NBitcoin.Indexer/AzureBlockImporter.cs:218-223 | Adds the entry and only appends to the trace. The run invariants hold afterwards, and no checkpoint is added. |
| TransactionImport.TransactionProducer.FlushAndWait | NBitcoin.Indexer/AzureBlockImporter.cs:228-232 | The new trace is the old one, then one batch per old bucket in some order of its keys, then a drain. The buckets are then empty, every entry read is enqueued and counted, and no checkpoint was added. The trace stays settled: every batch below 100 entries lies in this flush of every bucket, and the drain is its last event. |
| TransactionImport.TransactionProducer.Checkpoint | NBitcoin.Indexer/AzureBlockImporter.cs:226-235 | The new trace is the old one, then one batch per old bucket in some order of its keys, then a drain, then the save of `position`. So it adds exactly one checkpoint, at `position`, with the buckets empty and every entry read enqueued. The trace stays settled. |
| TransactionImport.TransactionProducer.ProcessTransaction | NBitcoin.Indexer/AzureBlockImporter.cs:217-236 | Adds the confirmed entry and only appends to the trace. It takes a checkpoint at the block's position if and only if the interval check answered yes. The run invariants hold afterwards: batches are only full buckets or part of a flush of every bucket, saves follow a full flush, and there is no stop. |
| TransactionImport.TransactionProducer.ImportNext | NBitcoin.Indexer/AzureBlockImporter.cs:215-236 | One transaction of a block only appends to the trace and advances the per-block progress by one: one more entry read, and the checkpoint of that transaction if due. |
| TransactionImport.TransactionProducer.ImportBlock | NBitcoin.Indexer/AzureBlockImporter.cs:214-237 | Only appends to the trace. It adds the block's entries in order, and the checkpoints added are exactly the block's `StepSaves`. The run invariants, including the batching policy, are kept. |
| TransactionImport.TransactionProducer.NewProgress | NBitcoin.Indexer/AzureBlockImporter.cs:205-211 | A fresh producer satisfies the run invariant with no block read. |
| TransactionImport.TransactionProducer.ImportNextBlock | NBitcoin.Indexer/AzureBlockImporter.cs:212-240 | One block only appends to the trace and advances the run invariant by one block. |
| TransactionImport.TransactionProducer.Finish | NBitcoin.Indexer/AzureBlockImporter.cs:242-250 | The new trace is the old one, then one batch per remaining bucket in some order of its keys, then drain, stop and the save of the last position. The run is then complete: every entry read is enqueued once, in well-formed batches, and counted. The periodic checkpoints come first, and every batch below 100 entries lies in a flush of every bucket. |
| TransactionImport.ImportTransactions | NBitcoin.Indexer/AzureBlockImporter.cs:205-250 | Resumes from the `tx` cursor (or `(0,0)`). Every batch holds 1 to 100 entries of one partition. A batch below 100 entries lies in a flush of every bucket just before a drain, with at most one batch per partition in that flush. Each entry read is enqueued exactly once, and `txCount` counts them. The checkpoints are exactly `ExpectedSaves`, each taken after a drain of a full flush, and the run ends with drain, stop, save of the last position read. |
| BlockImport.QueuedAppend | NBitcoin.Indexer/AzureBlockImporter.cs:344 | The blocks queued by two trace pieces are those of the first, then those of the second. |
| BlockImport.ImportBlocks | NBitcoin.Indexer/AzureBlockImporter.cs:327-353 | Resumes from the block stream's cursor (or `(0,0)`). The trace it produces is exactly `BlockRun`: per block, an optional drain and save, then the enqueue; at the end, drain, stop and save of the last position. |
| BlockImport.NothingQueued | NBitcoin.Indexer/AzureBlockImporter.cs:339-341 | A trace with no enqueue events queues no block. |
| BlockImport.StepQueuesItsBlock | NBitcoin.Indexer/AzureBlockImporter.cs:335-344 | The events for one block queue exactly that block. |
| BlockImport.EachBlockQueuedOnce | NBitcoin.Indexer/AzureBlockImporter.cs:332-347 | The blocks queued are exactly the blocks read, once each, in store order. |
| BlockImport.RunQueuesEachBlockOnce | NBitcoin.Indexer/AzureBlockImporter.cs:327-351 | A whole run queues each block once, in order. It ends with drain, stop and save of the last block's position, or of the start position when there was no block. |
| BlockImport.SaveOfBlockExtend | NBitcoin.Indexer/AzureBlockImporter.cs:332-347 | A save for a block stays a save for that block when the trace and block list grow. |
| BlockImport.LastBlockSave | NBitcoin.Indexer/AzureBlockImporter.cs:335-344 | When the last block's check answers yes, its events are a drain, the save of its position, then its enqueue. |
| BlockImport.SavesAreForTheirBlock | NBitcoin.Indexer/AzureBlockImporter.cs:332-347 | Every periodic save follows a drain. It is taken for a block whose check answered yes, saves that block's position before queuing it, and comes after exactly the earlier blocks were queued. |
| BlockImport.EveryDueBlockIsSaved | NBitcoin.Indexer/AzureBlockImporter.cs:332-347 | Every block whose check answered yes has such a save. |
| BlockImport.RunSavesAreForTheirBlock | NBitcoin.Indexer/AzureBlockImporter.cs:332-351 | In a whole run, every save but the last is such a save for a due block. |
| BlockImport.QueuedGrows | NBitcoin.Indexer/AzureBlockImporter.cs:344 | A longer prefix of a trace has queued at least as many blocks. |
| BlockImport.CheckpointsAscend | NBitcoin.Indexer/AzureBlockImporter.cs:327-351 | When the store yields blocks in ascending position order from the start, the saved positions never move backwards and none is before the start. |
| BlockImport.BlockRunResumesAtLastPosition | NBitcoin.Indexer/AzureBlockImporter.cs:327-351 | Writing a block run's saves in turn to the progress file makes the next run resume at the last position read. |

## Left out

- Azure storage calls are not modelled, since they are foreign code. This covers creating the container and table, `ExecuteBatch` with insert-or-replace, and `UploadFromByteArray` with the "already exists" (HTTP 412) case treated as success. The work queue is an append-only trace of what the producer enqueued. What the workers then write is not modelled.
- The `while(true)` retry loops with `Thread.Sleep(5000)` in both `SendToAzure` methods are left out. They retry foreign calls until they succeed and never end otherwise.
- Threads are not modelled. This covers the worker tasks, the bounded `BlockingCollection` (capacity 20), cancellation and `Task.WaitAll`. `stop.Cancel()` followed by `Task.WaitAll` is a single `Stop` event.
- TransactionProducer.WaitProcessed: it is only a `Drain` barrier event. The queue's count reaching zero means the workers took every item. It does not mean their writes finished, so the model claims nothing about durable writes before a checkpoint.
- The stopwatch is not modelled. The test "more than five minutes since the last save" is the oracle `elapsed`. The watch reset after a save is therefore not modelled either.
- `DiskBlockPos.Parse` and `ToString` are the function parameters `parse` and `format`. The resume lemmas require that the saved cursor round-trips.
- `File.ReadAllText` and `WriteAllText` become a `map<string, string>`. Any exception from reading is the "absent or unparsable" case of `GetPosition`.
- `uint256.ToString` is modelled as lower-case hex with the last byte first (64 characters). `GetByte(i)` is byte `i` of a 32-byte sequence. The NBitcoin `uint256` type is not part of this model. Only the fixed length and injectivity of the hex text matter to the row-key lemmas.
- `Path.GetFileName` is modelled as the text after the last `\`, `/` or `:`. Invalid path characters, which make it throw, are not modelled.
- IndexedTransactions.ParseUShort: it accepts only plain decimal digits. The leading or trailing white space and sign that `ushort.Parse` also accepts are left out. The model's key text never contains them.
- The `_Key` cache of the `Key` property is left out. `SetKey` shows that the getter gives back what the setter stored, which is the value the cache would hold.
- Block serialization (`block.ReadWrite`) is not modelled. The serialized block is a byte sequence whose length is a parameter.
- The order of entries inside a `MultiDictionary` bucket is not shown. The model assumes insertion order, and some contracts depend on it. `AddTransaction` and `PushTransactions` enqueue the bucket as it stands, and `FlushAll` (through `FlushedInSomeOrder`), `FlushAndWait`, `Checkpoint` and `Finish` enqueue each bucket as stored. Only the run-level conservation in `RunComplete` is stated on multisets, so it holds whatever order a bucket keeps.
- `store.Enumerate(new DiskBlockPosRange(start))` is assumed to start with the block at `start`. The block store is not part of this model. This assumption is what makes a resumed run read a block saved in the middle again.
- `FlushAll` takes the keys in an arbitrary order, because the map's enumeration order is not shown. Its contract holds for every order.
- `IndexerTrace` logging and the `blockCount` counter it alone reads in the transaction pipeline are left out. `SetThrottling` (process-wide connection settings) is left out too.
- Configuration is left out: `ImporterConfiguration`, `FromConfiguration`, `GetValue`, the client factories and `CreateBlockImporter`. The progress file name is a parameter, with default `progress.dat`.
- Integer widths: `txCount` is an `int` in the source and an unbounded integer here. Its 32-bit overflow after 2^31 entries is not modelled.
