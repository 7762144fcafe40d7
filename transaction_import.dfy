/** The producer side of the transaction pipeline: each transaction of each
    block becomes a confirmed `IndexedTransaction`, is put in the bucket of
    its partition key, and a bucket goes to the work queue as one batch when
    it reaches 100 entries, when the save interval has passed, and at the end.
    The workers that drain the queue are not modelled. */
module TransactionImport {

  import opened Wrappers
  import opened BlockStore
  import opened IndexedTransactions
  import opened Checkpoints
  import opened TransactionTrace

  /** The producer's state: the bucket multimap, the queue (as the trace of
      events) and the running count of enqueued entries. `added` is every
      entry handed to the buckets so far. */
  class TransactionProducer {
    var buckets: map<UShort, Batch>
    var trace: seq<Event>
    var txCount: int
    ghost var added: seq<IndexedTransaction>

    /** What holds between any two calls. */
    ghost predicate Consistent()
      reads this
    {
      ProducerInvariant(buckets, trace, txCount, added, BatchSize)
    }

    /** Between transactions no bucket is full: a full one has been
        flushed. */
    ghost predicate Valid()
      reads this
    {
      ProducerInvariant(buckets, trace, txCount, added, BatchSize - 1)
    }

    constructor ()
      ensures Valid()
      ensures buckets == map[] && trace == [] && txCount == 0 && added == []
    {
      buckets := map[];
      trace := [];
      txCount := 0;
      added := [];
    }

    /** `PushTransactions`: enqueue the bucket `collection` as one batch,
        count its entries, and remove the bucket of its first entry's key,
        which is the bucket it came from. */
    method PushTransactions(collection: Batch)
      requires Consistent()
      requires collection in buckets.Values
      modifies this
      ensures Consistent()
      ensures collection != [] && Key(collection[0]).Some?
      ensures var key := Key(collection[0]).value;
              key in old(buckets) && old(buckets)[key] == collection && buckets == old(buckets) - {key}
      ensures trace == old(trace) + [Enqueue(collection)]
      ensures txCount == old(txCount) + |collection|
      ensures added == old(added)
    {
      ghost var from :| from in buckets && buckets[from] == collection;
      PushKeepsInvariant(buckets, trace, txCount, added, BatchSize, from);
      var batch := collection;
      txCount := txCount + |batch|;
      trace := trace + [Enqueue(batch)];
      assert Key(batch[0]) == Some(from);
      buckets := buckets - {Key(batch[0]).value};
    }

    /** In `StartTransactionImportToAzure`, `buckets.Add` and the size check:
        add one entry to its bucket, and flush that bucket when it has reached
        exactly 100 entries. */
    method AddTransaction(key: UShort, indexed: IndexedTransaction) returns (flushed: bool)
      requires Valid()
      requires Key(indexed) == Some(key)
      modifies this
      ensures Valid()
      ensures added == old(added) + [indexed]
      ensures var grown := (if key in old(buckets) then old(buckets)[key] else []) + [indexed];
              && flushed == (|grown| == BatchSize)
              && (flushed ==> && buckets == old(buckets) - {key}
                              && trace == old(trace) + [Enqueue(grown)]
                              && txCount == old(txCount) + BatchSize)
              && (!flushed ==> && buckets == old(buckets)[key := grown]
                               && trace == old(trace) && txCount == old(txCount))
    {
      var grown := (if key in buckets then buckets[key] else []) + [indexed];
      GrowKeepsInvariant(buckets, trace, txCount, added, key, indexed);
      buckets := buckets[key := grown];
      added := added + [indexed];
      var collection := buckets[key];
      flushed := |collection| == BatchSize;
      if flushed {
        PushTransactions(collection);
      }
    }

    /** The `foreach` over `buckets.ToArray()` in
        `StartTransactionImportToAzure`, both in the periodic save and after
        the last block: flush every bucket, in the arbitrary order of the map.
        `order` is the order the keys were flushed in: each bucket of the old
        map is enqueued once, and the map is left empty. */
    method FlushAll() returns (ghost order: seq<UShort>)
      requires Consistent()
      modifies this
      ensures Valid() && buckets == map[]
      ensures added == old(added)
      ensures FlushedInSomeOrder(old(buckets), order, old(trace), trace)
    {
      var snapshot := buckets;
      var keys := buckets.Keys;
      order := [];
      while keys != {}
        invariant Consistent()
        invariant added == old(added)
        invariant Flushing(snapshot, buckets, keys, order, old(trace), trace)
        decreases |keys|
      {
        var key :| key in keys;
        FlushingStep(snapshot, buckets, keys, order, old(trace), trace, key);
        PushTransactions(snapshot[key]);
        order := order + [key];
        keys := keys - {key};
      }
      FlushingDone(snapshot, buckets, keys, order, old(trace), trace);
    }

    /** `WaitProcessed(transactions)`: a barrier event. It says only that the
        queue was seen empty, not that the writes are done. */
    method WaitProcessed()
      requires Consistent()
      modifies this
      ensures Consistent()
      ensures trace == old(trace) + [Drain]
      ensures buckets == old(buckets) && txCount == old(txCount) && added == old(added)
    {
      MarkerKeepsInvariant(buckets, trace, txCount, added, BatchSize, Drain);
      trace := trace + [Drain];
    }

    /** `stop.Cancel()` and `Task.WaitAll(tasks)`. */
    method StopWorkers()
      requires Consistent()
      modifies this
      ensures Consistent()
      ensures trace == old(trace) + [Stop]
      ensures buckets == old(buckets) && txCount == old(txCount) && added == old(added)
    {
      MarkerKeepsInvariant(buckets, trace, txCount, added, BatchSize, Stop);
      trace := trace + [Stop];
    }

    /** `SetPosition(position, "tx")`. */
    method SetPosition(position: Cursor)
      requires Consistent()
      modifies this
      ensures Consistent()
      ensures trace == old(trace) + [Save(position)]
      ensures buckets == old(buckets) && txCount == old(txCount) && added == old(added)
    {
      MarkerKeepsInvariant(buckets, trace, txCount, added, BatchSize, Save(position));
      trace := trace + [Save(position)];
    }

    /** In `StartTransactionImportToAzure`, the flush of every bucket followed
        by `WaitProcessed`: flush every bucket and wait for the queue. Every
        entry read so far has then been enqueued, and the last event is the
        drain. */
    method FlushAndWait(ghost all: seq<IndexedTransaction>) returns (ghost order: seq<UShort>, ghost flushed: seq<Event>)
      requires Valid() && Settled(trace) && SavesAfterFlush(trace, all) && NoStop(trace)
      requires ReadPrefix(added, all)
      modifies this
      ensures Valid() && buckets == map[] && SavesAfterFlush(trace, all) && NoStop(trace)
      ensures added == old(added) && txCount == |added|
      ensures |trace| >= 1 && trace[|trace| - 1] == Drain && FlushedPrefix(trace, all)
      ensures FlushedInSomeOrder(old(buckets), order, old(trace), flushed) && trace == flushed + [Drain]
      ensures PartialBatchesFlushed(trace) && DrainsAnswered(flushed)
      ensures Saves(trace) == old(Saves(trace))
    {
      ghost var before := trace;
      order := FlushAll();
      flushed := trace;
      FlushedThenDrained(old(buckets), order, before, flushed, txCount, added, all);
      FlushThenDrain(old(buckets), order, before, flushed);
      WaitProcessed();
    }

    /** The `watch.Elapsed > saveInterval` branch of
        `StartTransactionImportToAzure`: the periodic checkpoint. Every bucket
        is flushed, the queue is waited for, and `position` is saved right
        after the drain, with every entry read so far enqueued. */
    method Checkpoint(position: Cursor, ghost all: seq<IndexedTransaction>)
      returns (ghost order: seq<UShort>, ghost flushed: seq<Event>)
      requires Valid() && Settled(trace) && SavesAfterFlush(trace, all) && NoStop(trace)
      requires ReadPrefix(added, all)
      modifies this
      ensures Valid() && buckets == map[] && Settled(trace) && SavesAfterFlush(trace, all) && NoStop(trace)
      ensures added == old(added) && txCount == |added|
      ensures FlushedInSomeOrder(old(buckets), order, old(trace), flushed)
      ensures trace == flushed + [Drain] + [Save(position)]
      ensures Saves(trace) == old(Saves(trace)) + [SavePoint(|added|, position)]
    {
      order, flushed := FlushAndWait(all);
      ghost var drained := trace;
      SetPosition(position);
      AppendSave(drained, flushed, position, all);
      NoStopExtend(drained, trace);
    }

    /** `buckets.Add` and the size check of `StartTransactionImportToAzure`
        within a run: the entry is added, its bucket is flushed when full, and
        no checkpoint is taken. A full bucket goes out as a batch of 100, so
        the trace stays settled. */
    method AddToRun(indexed: IndexedTransaction, ghost all: seq<IndexedTransaction>)
      requires Valid() && Settled(trace) && SavesAfterFlush(trace, all) && NoStop(trace)
      requires Key(indexed).Some?
      modifies this
      ensures Valid() && Settled(trace) && SavesAfterFlush(trace, all) && NoStop(trace)
      ensures Extends(old(trace), trace)
      ensures added == old(added) + [indexed]
      ensures Saves(trace) == old(Saves(trace))
    {
      ghost var before := trace;
      var flushed := AddTransaction(Key(indexed).value, indexed);
      if flushed {
        AppendSettled(before, trace[|trace| - 1]);
      }
      ExtendWithoutSave(before, trace, all);
      NoStopExtend(before, trace);
    }

    /** The body of the inner `foreach` of `StartTransactionImportToAzure`,
        for one transaction of the block at `position`: build its confirmed
        entry, add it to its bucket, and when the save interval has passed
        take a checkpoint at `position`. */
    method ProcessTransaction(txId: Hash256, blockId: Hash256, position: Cursor, saveDue: bool,
                              ghost all: seq<IndexedTransaction>)
      requires Valid() && Settled(trace) && SavesAfterFlush(trace, all) && NoStop(trace)
      requires ReadPrefix(added + [ConfirmedEntry(txId, blockId)], all)
      modifies this
      ensures Valid() && Settled(trace) && SavesAfterFlush(trace, all) && NoStop(trace)
      ensures Extends(old(trace), trace)
      ensures added == old(added) + [ConfirmedEntry(txId, blockId)]
      ensures Saves(trace) == old(Saves(trace)) + SaveIf(saveDue, SavePoint(|added|, position))
    {
      var indexed := ConfirmedEntry(txId, blockId);
      AddToRun(indexed, all);
      if saveDue {
        ghost var mid, snapshot := trace, buckets;
        ghost var order, flushed := Checkpoint(position, all);
        FlushExtends(snapshot, order, mid, flushed, [Drain] + [Save(position)]);
      }
    }

    /** The state after the first `t` transactions of `block`: `done` is
        what was read before the block and `saves` the checkpoints taken
        before it. */
    ghost predicate BlockProgress(block: StoredBlock, first: nat, elapsed: nat -> bool,
                                  all: seq<IndexedTransaction>, done: seq<IndexedTransaction>,
                                  saves: seq<SavePoint>, t: nat)
      reads this
    {
      && Valid() && Settled(trace) && SavesAfterFlush(trace, all) && NoStop(trace)
      && InBlock(trace, added, block, first, elapsed, all, done, saves, t)
    }

    /** The body of the inner `foreach` of `StartTransactionImportToAzure` for
        the transaction at index `t` of `block`: the entry is added and the
        checkpoint taken when the interval has passed after `first + t`
        earlier transactions. */
    method ImportNext(block: StoredBlock, first: nat, elapsed: nat -> bool, ghost all: seq<IndexedTransaction>,
                      ghost done: seq<IndexedTransaction>, ghost saves: seq<SavePoint>, t: nat)
      requires BlockProgress(block, first, elapsed, all, done, saves, t)
      requires t < |block.transactions|
      modifies this
      ensures BlockProgress(block, first, elapsed, all, done, saves, t + 1)
      ensures Extends(old(trace), trace)
    {
      InBlockNextEntry(trace, added, block, first, elapsed, all, done, saves, t);
      ghost var before, addedBefore := trace, added;
      ProcessTransaction(block.transactions[t], block.hash, block.position, elapsed(first + t), all);
      InBlockStep(before, addedBefore, trace, added, block, first, elapsed, all, done, saves, t);
    }

    /** The inner `foreach` of `StartTransactionImportToAzure`, for one block:
        every transaction of the block, in order, with the interval check
        after each; `first` counts the transactions read before this block. */
    method ImportBlock(block: StoredBlock, first: nat, elapsed: nat -> bool, ghost all: seq<IndexedTransaction>)
      requires Valid() && Settled(trace) && SavesAfterFlush(trace, all) && NoStop(trace)
      requires first == |added|
      requires ReadPrefix(added + BlockEntries(block), all)
      modifies this
      ensures Valid() && Settled(trace) && SavesAfterFlush(trace, all) && NoStop(trace)
      ensures Extends(old(trace), trace)
      ensures added == old(added) + BlockEntries(block)
      ensures Saves(trace) == old(Saves(trace)) + StepSaves(block.position, first, |block.transactions|, elapsed)
    {
      ghost var done := added;
      ghost var saves := Saves(trace);
      assert BlockEntries(block)[..0] == [] && done + [] == done;
      assert saves + [] == saves;
      var t := 0;
      while t < |block.transactions|
        invariant BlockProgress(block, first, elapsed, all, done, saves, t)
        invariant Extends(old(trace), trace)
        decreases |block.transactions| - t
      {
        ImportNext(block, first, elapsed, all, done, saves, t);
        t := t + 1;
      }
      assert BlockEntries(block)[..t] == BlockEntries(block);
    }

    /** The state after the first `b` blocks, `read` of whose transactions
        have been read. */
    ghost predicate BlocksProgress(blocks: seq<StoredBlock>, elapsed: nat -> bool, all: seq<IndexedTransaction>,
                                   b: nat, read: nat)
      reads this
    {
      && b <= |blocks| && all == AllEntries(blocks)
      && Valid() && Settled(trace) && SavesAfterFlush(trace, all) && NoStop(trace)
      && added == AllEntries(blocks[..b]) && read == |added|
      && Saves(trace) == PeriodicSaves(blocks[..b], elapsed)
    }

    /** A new producer has read no block. */
    lemma NewProgress(blocks: seq<StoredBlock>, elapsed: nat -> bool, all: seq<IndexedTransaction>)
      requires buckets == map[] && trace == [] && txCount == 0 && added == []
      requires all == AllEntries(blocks)
      ensures BlocksProgress(blocks, elapsed, all, 0, 0)
    {
      assert blocks[..0] == [];
      assert Pending(map[]) == multiset{};
    }

    /** One pass of the outer `foreach` of `StartTransactionImportToAzure`,
        for the block at index `b`. */
    method ImportNextBlock(blocks: seq<StoredBlock>, elapsed: nat -> bool, ghost all: seq<IndexedTransaction>,
                           b: nat, read: nat)
      requires BlocksProgress(blocks, elapsed, all, b, read) && b < |blocks|
      modifies this
      ensures BlocksProgress(blocks, elapsed, all, b + 1, read + |blocks[b].transactions|)
      ensures Extends(old(trace), trace)
    {
      AllEntriesStep(blocks, b);
      AllEntriesPrefix(blocks, b + 1);
      PeriodicSavesStep(blocks, b, elapsed);
      ImportBlock(blocks[b], read, elapsed, all);
    }

    /** The end of `StartTransactionImportToAzure`, after the last block:
        flush every bucket, wait for the queue, stop the workers and save
        `lastPosition`. Every entry read is then enqueued, and the final save
        follows the drain and the stop. */
    method Finish(blocks: seq<StoredBlock>, elapsed: nat -> bool, ghost all: seq<IndexedTransaction>,
                  read: nat, lastPosition: Cursor) returns (ghost order: seq<UShort>, ghost flushed: seq<Event>)
      requires BlocksProgress(blocks, elapsed, all, |blocks|, read)
      modifies this
      ensures RunComplete(trace, txCount, all, PeriodicSaves(blocks, elapsed), lastPosition)
      ensures FlushedInSomeOrder(old(buckets), order, old(trace), flushed)
      ensures trace == flushed + [Drain] + [Stop] + [Save(lastPosition)]
    {
      assert blocks[..|blocks|] == blocks;
      assert all[..|added|] == all;
      order, flushed := FlushAndWait(all);
      ghost var drained := trace;
      StopWorkers();
      SetPosition(lastPosition);
      StoppedThenSaved(drained, flushed, txCount, lastPosition, all, PeriodicSaves(blocks, elapsed));
    }
  }

  /** The producer side of `StartTransactionImportToAzure`: resume from the
      "tx" checkpoint, read every transaction of every block the store yields,
      flush and drain, stop the workers and save the last block position. The
      checkpoints are the periodic ones and then the final one; every batch is
      one partition of 1 to 100 entries; every entry read is enqueued exactly
      once; `txCount` counts them; and the run ends with the drain, the stop
      and the save of the last position read, with each earlier save taken
      right after a drain of a full flush. */
  method ImportTransactions(files: map<string, string>, progressFile: string, parse: string -> Option<Cursor>,
                            blocks: seq<StoredBlock>, elapsed: nat -> bool)
    returns (startPosition: Cursor, trace: seq<Event>, txCount: int)
    ensures startPosition == GetPosition(files, Some(TxStream), progressFile, parse)
    ensures RunComplete(trace, txCount, AllEntries(blocks), PeriodicSaves(blocks, elapsed),
                        LastPosition(startPosition, blocks))
    ensures Saves(trace) == ExpectedSaves(startPosition, blocks, elapsed)
  {
    startPosition := GetPosition(files, Some(TxStream), progressFile, parse);
    var lastPosition := startPosition;
    ghost var all := AllEntries(blocks);
    var producer := new TransactionProducer();
    var read: nat := 0;  // transactions read so far: the step the interval oracle is asked about
    var b := 0;
    producer.NewProgress(blocks, elapsed, all);
    while b < |blocks|
      invariant producer.BlocksProgress(blocks, elapsed, all, b, read)
      invariant lastPosition == LastPosition(startPosition, blocks[..b])
    {
      lastPosition := blocks[b].position;
      producer.ImportNextBlock(blocks, elapsed, all, b, read);
      read := read + |blocks[b].transactions|;
      b := b + 1;
    }
    ghost var order, flushed := producer.Finish(blocks, elapsed, all, read, lastPosition);
    trace, txCount := producer.trace, producer.txCount;
  }
}
