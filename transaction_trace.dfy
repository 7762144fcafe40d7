/** The work queue of the transaction pipeline as an append-only trace of
    what the producer did, and what a correct run looks like: buckets of
    one partition key each, batches of at most 100 entries, every entry
    enqueued exactly once, and checkpoints only after a full flush and a
    drain of the queue. */
module TransactionTrace {

  import opened Wrappers
  import opened BlockStore
  import opened IndexedTransactions
  import opened Checkpoints
  /** The largest batch the table store accepts, and the bucket size that
      triggers a flush. */
  const BatchSize := 100

  /** An `IndexedTransaction[]` put on the work queue. */
  type Batch = seq<IndexedTransaction>

  /** What the producer does, in order. */
  datatype Event =
    | Enqueue(batch: Batch)   // transactions.Add(array)
    | Drain                   // WaitProcessed: the queue was seen empty
    | Stop                    // stop.Cancel() and Task.WaitAll(tasks)
    | Save(position: Cursor)  // SetPosition(lastPosition, "tx")

  /** The entries of all batches enqueued in `trace`, in trace order. */
  function Enqueued(trace: seq<Event>): seq<IndexedTransaction> {
    if trace == [] then []
    else
      var last := trace[|trace| - 1];
      Enqueued(trace[..|trace| - 1]) + (if last.Enqueue? then last.batch else [])
  }

  lemma EnqueuedAppend(trace: seq<Event>, e: Event)
    ensures Enqueued(trace + [e]) == Enqueued(trace) + (if e.Enqueue? then e.batch else [])
  {
    assert (trace + [e])[..|trace|] == trace;
  }

  /** The entries waiting in the buckets. */
  ghost function Pending(buckets: map<UShort, Batch>): multiset<IndexedTransaction>
    decreases |buckets|
  {
    if buckets == map[] then multiset{}
    else
      var k :| k in buckets;
      multiset(buckets[k]) + Pending(buckets - {k})
  }

  lemma MultisetSwap<T>(x: multiset<T>, y: multiset<T>, r: multiset<T>)
    ensures x + (y + r) == y + (x + r)
  {
  }

  lemma MultisetGrow<T>(a: multiset<T>, e: multiset<T>, r: multiset<T>)
    ensures (a + e) + r == (a + r) + e
  {
  }

  /** Taking any one bucket out of the map takes exactly its entries out
      of the pending ones. */
  lemma {:induction false} PendingRemove(buckets: map<UShort, Batch>, key: UShort)
    requires key in buckets
    ensures Pending(buckets) == multiset(buckets[key]) + Pending(buckets - {key})
    decreases |buckets|
  {
    var k :| k in buckets && Pending(buckets) == multiset(buckets[k]) + Pending(buckets - {k});
    if k != key {
      var rest := buckets - {k};
      PendingRemove(rest, key);
      PendingRemove(buckets - {key}, k);
      assert rest - {key} == (buckets - {key}) - {k};
      var x, y, r := multiset(buckets[k]), multiset(buckets[key]), Pending(rest - {key});
      assert Pending(buckets) == x + (y + r);
      assert Pending(buckets - {key}) == x + r;
      MultisetSwap(x, y, r);
    }
  }

  /** Adding an entry to a bucket adds exactly that entry to the pending
      ones. */
  lemma PendingGrow(buckets: map<UShort, Batch>, key: UShort, entry: IndexedTransaction)
    ensures var grown := (if key in buckets then buckets[key] else []) + [entry];
            Pending(buckets[key := grown]) == Pending(buckets) + multiset{entry}
  {
    var before := if key in buckets then buckets[key] else [];
    var grown := before + [entry];
    var rest := buckets - {key};
    assert Pending(buckets[key := grown]) == multiset(grown) + Pending(rest) by {
      PendingRemove(buckets[key := grown], key);
      assert buckets[key := grown] - {key} == rest;
    }
    assert multiset(grown) == multiset(before) + multiset{entry} by {
      assert grown[..|grown| - 1] == before;
    }
    assert Pending(buckets) == multiset(before) + Pending(rest) by {
      if key in buckets {
        PendingRemove(buckets, key);
      } else {
        assert rest == buckets;
      }
    }
    MultisetGrow(multiset(before), multiset{entry}, Pending(rest));
  }

  /** Every entry of `batch` reads back partition key `key`. */
  predicate SameKey(batch: Batch, key: UShort) {
    forall i :: 0 <= i < |batch| ==> Key(batch[i]) == Some(key)
  }

  /** A batch the table store accepts: 1 to 100 entries, one partition. */
  predicate WellFormedBatch(batch: Batch) {
    1 <= |batch| <= BatchSize && Key(batch[0]).Some? && SameKey(batch, Key(batch[0]).value)
  }

  predicate BatchesWellFormed(trace: seq<Event>) {
    forall i :: 0 <= i < |trace| && trace[i].Enqueue? ==> WellFormedBatch(trace[i].batch)
  }

  /** Every bucket is non-empty, holds at most `bound` entries, and only
      entries of its own key. */
  predicate BucketsWithin(buckets: map<UShort, Batch>, bound: nat) {
    forall k :: k in buckets ==> 1 <= |buckets[k]| <= bound && SameKey(buckets[k], k)
  }

  /** Appending an entry of key `key` to a bucket map with no full bucket
      gives a map whose only possibly full bucket is `key`'s. */
  lemma BucketsGrow(buckets: map<UShort, Batch>, key: UShort, entry: IndexedTransaction)
    requires BucketsWithin(buckets, BatchSize - 1)
    requires Key(entry) == Some(key)
    ensures var grown := (if key in buckets then buckets[key] else []) + [entry];
            && SameKey(grown, key) && 1 <= |grown| <= BatchSize
            && BucketsWithin(buckets[key := grown], BatchSize)
            && BucketsWithin(buckets - {key}, BatchSize - 1)
            && (|grown| < BatchSize ==> BucketsWithin(buckets[key := grown], BatchSize - 1))
  {
  }

  /** `trace` is `before` followed by one batch per bucket of `buckets`,
      each bucket exactly once, in the order of the keys in `order`. */
  ghost predicate FlushedInSomeOrder(buckets: map<UShort, Batch>, order: seq<UShort>,
                                     before: seq<Event>, trace: seq<Event>)
  {
    && |order| == |buckets|
    && (forall i, j :: 0 <= i < j < |order| ==> order[i] != order[j])
    && (forall k :: k in buckets <==> k in order)
    && |trace| == |before| + |order| && trace[..|before|] == before
    && (forall i :: 0 <= i < |order| ==>
          order[i] in buckets && trace[|before| + i] == Enqueue(buckets[order[i]]))
  }

  /** Part way through a flush of the `snapshot` map: `keys` are still in
      `buckets`, unchanged, and `order` lists, once each, the keys already
      flushed, whose batches follow `before` in the trace. */
  ghost predicate Flushing(snapshot: map<UShort, Batch>, buckets: map<UShort, Batch>, keys: set<UShort>,
                           order: seq<UShort>, before: seq<Event>, trace: seq<Event>)
  {
    && keys == buckets.Keys && keys <= snapshot.Keys
    && (forall k :: k in buckets ==> buckets[k] == snapshot[k])
    && |keys| + |order| == |snapshot.Keys|
    && (forall i, j :: 0 <= i < j < |order| ==> order[i] != order[j])
    && (forall k :: k in snapshot ==> (k in keys <==> k !in order))
    && (forall i :: 0 <= i < |order| ==> order[i] in snapshot)
    && |trace| == |before| + |order| && trace[..|before|] == before
    && (forall i :: 0 <= i < |order| ==> trace[|before| + i] == Enqueue(snapshot[order[i]]))
  }

  lemma FlushingStep(snapshot: map<UShort, Batch>, buckets: map<UShort, Batch>, keys: set<UShort>,
                     order: seq<UShort>, before: seq<Event>, trace: seq<Event>, key: UShort)
    requires Flushing(snapshot, buckets, keys, order, before, trace)
    requires key in keys
    ensures snapshot[key] == buckets[key]
    ensures Flushing(snapshot, buckets - {key}, keys - {key}, order + [key], before,
                     trace + [Enqueue(snapshot[key])])
  {
    var trace' := trace + [Enqueue(snapshot[key])];
    assert trace'[..|before|] == trace[..|before|];
  }

  lemma FlushingDone(snapshot: map<UShort, Batch>, buckets: map<UShort, Batch>, keys: set<UShort>,
                     order: seq<UShort>, before: seq<Event>, trace: seq<Event>)
    requires Flushing(snapshot, buckets, keys, order, before, trace)
    requires keys == {}
    ensures buckets == map[]
    ensures FlushedInSomeOrder(snapshot, order, before, trace)
  {
  }

  /** The queue is append-only: `after` is `before` with events added at
      the end. */
  ghost predicate Extends(before: seq<Event>, after: seq<Event>) {
    before <= after
  }

  // ---------------------------------------------------------------------
  // The batching policy of a run

  /** A batch of fewer than 100 entries: only a flush of every bucket
      enqueues one, since a bucket that reaches 100 is enqueued at once. */
  predicate PartialBatch(e: Event) {
    e.Enqueue? && |e.batch| < BatchSize
  }

  /** The partition key of an enqueued batch, read from its first entry. */
  function BatchKey(e: Event): Option<UShort> {
    if e.Enqueue? && e.batch != [] then Key(e.batch[0]) else None
  }

  /** Events `k` to `j - 1` of `trace` are partial batches of pairwise
      distinct partition keys, and event `j` is a drain: the tail of one
      flush of every bucket, then the wait for the queue. */
  ghost predicate FlushRun(trace: seq<Event>, k: nat, j: nat) {
    && k <= j < |trace| && trace[j] == Drain
    && (forall m :: k <= m < j ==> PartialBatch(trace[m]))
    && (forall m, n :: k <= m < n < j ==> BatchKey(trace[m]) != BatchKey(trace[n]))
  }

  /** Every partial batch belongs to a flush of every bucket: from it up to
      the next drain there are only partial batches, one per partition
      key. So the entries of one partition go out in one batch unless
      their bucket reached 100 entries or a checkpoint came between. */
  ghost predicate PartialBatchesFlushed(trace: seq<Event>) {
    forall k :: 0 <= k < |trace| && PartialBatch(trace[k]) ==> exists j :: FlushRun(trace, k, j)
  }

  /** Every drain is followed at once by a save (a checkpoint) or by the
      stop of the workers (the end of the run). */
  ghost predicate DrainsAnswered(trace: seq<Event>) {
    forall i :: 0 <= i < |trace| && trace[i] == Drain ==>
      i + 1 < |trace| && (trace[i + 1].Save? || trace[i + 1] == Stop)
  }

  /** The trace between two steps of the producer: every partial batch
      belongs to a flush and every drain has been answered. */
  ghost predicate Settled(trace: seq<Event>) {
    PartialBatchesFlushed(trace) && DrainsAnswered(trace)
  }

  /** Appending an event that is neither a partial batch nor a drain keeps
      a trace settled. */
  lemma AppendSettled(trace: seq<Event>, e: Event)
    requires Settled(trace)
    requires !PartialBatch(e) && e != Drain
    ensures Settled(trace + [e])
  {
    var t := trace + [e];
    forall k | 0 <= k < |t| && PartialBatch(t[k]) ensures exists j :: FlushRun(t, k, j) {
      var j :| FlushRun(trace, k, j);
      assert FlushRun(t, k, j);
    }
  }

  /** A flush of every bucket of a map whose buckets hold at most 99
      entries, appended to a settled trace, is a run of partial batches of
      distinct keys; with the drain after it, every partial batch belongs
      to a flush. */
  lemma FlushThenDrain(snapshot: map<UShort, Batch>, order: seq<UShort>, before: seq<Event>, flushed: seq<Event>)
    requires Settled(before)
    requires BucketsWithin(snapshot, BatchSize - 1)
    requires FlushedInSomeOrder(snapshot, order, before, flushed)
    ensures PartialBatchesFlushed(flushed + [Drain]) && DrainsAnswered(flushed)
  {
    var d := flushed + [Drain];
    var end := |flushed|;
    assert d[..|before|] == before;
    forall m | |before| <= m < end
      ensures PartialBatch(d[m]) && BatchKey(d[m]) == Some(order[m - |before|])
    {
      var key := order[m - |before|];
      assert d[m] == flushed[|before| + (m - |before|)] == Enqueue(snapshot[key]);
      assert SameKey(snapshot[key], key);
    }
    forall k | 0 <= k < |d| && PartialBatch(d[k]) ensures exists j :: FlushRun(d, k, j) {
      if k < |before| {
        assert before[k] == d[k];
        var j :| FlushRun(before, k, j);
        assert FlushRun(d, k, j);
      } else {
        assert FlushRun(d, k, end);
      }
    }
    forall i | |before| <= i < |flushed| ensures flushed[i] != Drain {
      assert d[i] == flushed[i];
    }
    forall i | 0 <= i < |before| && flushed[i] == Drain
      ensures i + 1 < |flushed| && (flushed[i + 1].Save? || flushed[i + 1] == Stop)
    {
      assert before[i] == flushed[i];
      assert before[i + 1] == flushed[i + 1];
    }
  }

  /** A flush extends the trace it started from, whatever follows it. */
  lemma FlushExtends(snapshot: map<UShort, Batch>, order: seq<UShort>, before: seq<Event>, flushed: seq<Event>,
                     tail: seq<Event>)
    requires FlushedInSomeOrder(snapshot, order, before, flushed)
    ensures Extends(before, flushed + tail)
  {
    assert (flushed + tail)[..|before|] == flushed[..|before|];
  }

  /** Answering the last drain with a save or a stop settles the trace. */
  lemma AnswerDrain(flushed: seq<Event>, e: Event)
    requires PartialBatchesFlushed(flushed + [Drain]) && DrainsAnswered(flushed)
    requires e.Save? || e == Stop
    ensures Settled(flushed + [Drain] + [e])
  {
    var trace := flushed + [Drain];
    var t := trace + [e];
    forall k | 0 <= k < |t| && PartialBatch(t[k]) ensures exists j :: FlushRun(t, k, j) {
      var j :| FlushRun(trace, k, j);
      assert FlushRun(t, k, j);
    }
    forall i | 0 <= i < |t| && t[i] == Drain ensures i + 1 < |t| && (t[i + 1].Save? || t[i + 1] == Stop) {
      if i < |flushed| {
        assert flushed[i] == t[i];
        if i + 1 < |flushed| {
          assert flushed[i + 1] == t[i + 1];
        }
      }
    }
  }

  /** Multiset equality, stated element by element. */
  ghost predicate SameCounts<T(!new)>(a: multiset<T>, b: multiset<T>) {
    forall e :: a[e] == b[e]
  }

  lemma SameCountsIff<T(!new)>(a: multiset<T>, b: multiset<T>)
    ensures SameCounts(a, b) <==> a == b
  {
  }

  /** The producer's invariant, on plain values: buckets hold 1 to
      `bound` entries of their own key, every enqueued batch is well
      formed, `txCount` counts the enqueued entries, and every entry added
      is either enqueued or pending, each exactly once. */
  ghost predicate ProducerInvariant(buckets: map<UShort, Batch>, trace: seq<Event>, txCount: int,
                                    added: seq<IndexedTransaction>, bound: nat)
  {
    && BucketsWithin(buckets, bound)
    && BatchesWellFormed(trace)
    && txCount == |Enqueued(trace)|
    && SameCounts(multiset(added), multiset(Enqueued(trace)) + Pending(buckets))
  }

  /** Flushing one bucket keeps the invariant. */
  lemma PushKeepsInvariant(buckets: map<UShort, Batch>, trace: seq<Event>, txCount: int,
                           added: seq<IndexedTransaction>, bound: nat, key: UShort)
    requires ProducerInvariant(buckets, trace, txCount, added, bound)
    requires key in buckets && bound <= BatchSize
    ensures ProducerInvariant(buckets - {key}, trace + [Enqueue(buckets[key])],
                              txCount + |buckets[key]|, added, bound)
  {
    EnqueuedAppend(trace, Enqueue(buckets[key]));
    PendingRemove(buckets, key);
    SameCountsIff(multiset(added), multiset(Enqueued(trace)) + Pending(buckets));
    SameCountsIff(multiset(added), multiset(Enqueued(trace + [Enqueue(buckets[key])])) + Pending(buckets - {key}));
  }

  /** Adding one entry to its bucket keeps the invariant with room for a
      full bucket, and with no full bucket unless the grown one is full. */
  lemma GrowKeepsInvariant(buckets: map<UShort, Batch>, trace: seq<Event>, txCount: int,
                           added: seq<IndexedTransaction>, key: UShort, entry: IndexedTransaction)
    requires ProducerInvariant(buckets, trace, txCount, added, BatchSize - 1)
    requires Key(entry) == Some(key)
    ensures var grown := (if key in buckets then buckets[key] else []) + [entry];
            && ProducerInvariant(buckets[key := grown], trace, txCount, added + [entry], BatchSize)
            && BucketsWithin(buckets - {key}, BatchSize - 1)
            && (|grown| < BatchSize ==>
                  ProducerInvariant(buckets[key := grown], trace, txCount, added + [entry], BatchSize - 1))
  {
    PendingGrow(buckets, key, entry);
    BucketsGrow(buckets, key, entry);
    var grown := (if key in buckets then buckets[key] else []) + [entry];
    SameCountsIff(multiset(added), multiset(Enqueued(trace)) + Pending(buckets));
    SameCountsIff(multiset(added + [entry]), multiset(Enqueued(trace)) + Pending(buckets[key := grown]));
    assert (added + [entry])[..|added|] == added;
  }

  /** Appending an event that is not a batch keeps the invariant. */
  lemma MarkerKeepsInvariant(buckets: map<UShort, Batch>, trace: seq<Event>, txCount: int,
                             added: seq<IndexedTransaction>, bound: nat, e: Event)
    requires ProducerInvariant(buckets, trace, txCount, added, bound)
    requires !e.Enqueue?
    ensures ProducerInvariant(buckets, trace + [e], txCount, added, bound)
  {
    EnqueuedAppend(trace, e);
    SameCountsIff(multiset(added), multiset(Enqueued(trace)) + Pending(buckets));
    SameCountsIff(multiset(added), multiset(Enqueued(trace + [e])) + Pending(buckets));
  }

  // ---------------------------------------------------------------------
  // What the pipeline reads and when it must save

  /** The confirmed entries built from one block, in block order. */
  function BlockEntries(block: StoredBlock): seq<IndexedTransaction> {
    seq(|block.transactions|, i requires 0 <= i < |block.transactions| =>
          ConfirmedEntry(block.transactions[i], block.hash))
  }

  /** The entries built from a run of blocks, in reading order. */
  function AllEntries(blocks: seq<StoredBlock>): seq<IndexedTransaction> {
    if blocks == [] then []
    else AllEntries(blocks[..|blocks| - 1]) + BlockEntries(blocks[|blocks| - 1])
  }

  lemma AllEntriesStep(blocks: seq<StoredBlock>, b: nat)
    requires b < |blocks|
    ensures AllEntries(blocks[..b + 1]) == AllEntries(blocks[..b]) + BlockEntries(blocks[b])
  {
    assert blocks[..b + 1][..b] == blocks[..b];
  }

  /** The entries of the first `n` blocks are the first entries of all. */
  lemma {:induction false} AllEntriesPrefix(blocks: seq<StoredBlock>, n: nat)
    requires n <= |blocks|
    ensures |AllEntries(blocks[..n])| <= |AllEntries(blocks)|
    ensures AllEntries(blocks[..n]) == AllEntries(blocks)[..|AllEntries(blocks[..n])|]
    decreases |blocks|
  {
    if n < |blocks| {
      var front := blocks[..|blocks| - 1];
      assert blocks[..n] == front[..n];
      AllEntriesPrefix(front, n);
      assert AllEntries(blocks) == AllEntries(front) + BlockEntries(blocks[|blocks| - 1]);
    } else {
      assert blocks[..n] == blocks;
    }
  }

  /** A checkpoint: how many entries had been enqueued when it was taken,
      and the position saved. */
  datatype SavePoint = SavePoint(enqueued: nat, position: Cursor)

  /** The checkpoints of a trace, in order. */
  function Saves(trace: seq<Event>): seq<SavePoint> {
    if trace == [] then []
    else
      var front, last := trace[..|trace| - 1], trace[|trace| - 1];
      Saves(front) + (if last.Save? then [SavePoint(|Enqueued(front)|, last.position)] else [])
  }

  lemma SavesAppend(trace: seq<Event>, e: Event)
    ensures Saves(trace + [e])
            == Saves(trace) + (if e.Save? then [SavePoint(|Enqueued(trace)|, e.position)] else [])
  {
    assert (trace + [e])[..|trace|] == trace;
  }

  /** The positions written by a run of checkpoints, in order. */
  function SavedPositions(saves: seq<SavePoint>): seq<Cursor>
  {
    seq(|saves|, i requires 0 <= i < |saves| => saves[i].position)
  }

  /** The checkpoint `p`, if the interval check answered yes. */
  function SaveIf(due: bool, p: SavePoint): seq<SavePoint> {
    if due then [p] else []
  }

  /** The periodic checkpoints while reading `count` transactions of the
      block at `position`, numbered from `first`: one after each
      transaction whose interval check answered yes, counting every entry
      read so far. */
  function StepSaves(position: Cursor, first: nat, count: nat, elapsed: nat -> bool): seq<SavePoint> {
    if count == 0 then []
    else
      StepSaves(position, first, count - 1, elapsed)
      + SaveIf(elapsed(first + count - 1), SavePoint(first + count, position))
  }

  lemma ConcatAssoc<T>(a: seq<T>, b: seq<T>, c: seq<T>)
    ensures (a + b) + c == a + (b + c)
  {
  }

  lemma StepSavesNext(position: Cursor, first: nat, count: nat, elapsed: nat -> bool)
    ensures StepSaves(position, first, count + 1, elapsed)
            == StepSaves(position, first, count, elapsed)
               + SaveIf(elapsed(first + count), SavePoint(first + count + 1, position))
  {
  }

  /** The periodic checkpoints of a run of blocks. */
  function PeriodicSaves(blocks: seq<StoredBlock>, elapsed: nat -> bool): seq<SavePoint> {
    if blocks == [] then []
    else
      var front, last := blocks[..|blocks| - 1], blocks[|blocks| - 1];
      PeriodicSaves(front, elapsed)
      + StepSaves(last.position, |AllEntries(front)|, |last.transactions|, elapsed)
  }

  /** All checkpoints of a run: the periodic ones, then the final one with
      every entry enqueued and the last position read. */
  function ExpectedSaves(start: Cursor, blocks: seq<StoredBlock>, elapsed: nat -> bool): seq<SavePoint> {
    PeriodicSaves(blocks, elapsed) + [SavePoint(|AllEntries(blocks)|, LastPosition(start, blocks))]
  }

  lemma PeriodicSavesStep(blocks: seq<StoredBlock>, b: nat, elapsed: nat -> bool)
    requires b < |blocks|
    ensures PeriodicSaves(blocks[..b + 1], elapsed)
            == PeriodicSaves(blocks[..b], elapsed)
               + StepSaves(blocks[b].position, |AllEntries(blocks[..b])|, |blocks[b].transactions|, elapsed)
  {
    assert blocks[..b + 1][..b] == blocks[..b];
  }

  /** The check after transaction `t` of a block answered yes and `p` is
      the checkpoint it took. */
  predicate DueStep(position: Cursor, first: nat, elapsed: nat -> bool, t: nat, p: SavePoint) {
    elapsed(first + t) && p == SavePoint(first + t + 1, position)
  }

  /** The checkpoints while reading one block are those of the
      transactions whose interval check answered yes: each saves the
      block's own position with every entry read so far, up to and
      including that transaction, enqueued. */
  lemma {:induction false} StepSavesMembers(position: Cursor, first: nat, count: nat, elapsed: nat -> bool,
                                            p: SavePoint)
    ensures p in StepSaves(position, first, count, elapsed) <==>
            exists t: nat :: t < count && DueStep(position, first, elapsed, t, p)
  {
    if count > 0 {
      StepSavesMembers(position, first, count - 1, elapsed, p);
      var last := count - 1;
      if DueStep(position, first, elapsed, last, p) {
        assert p in SaveIf(elapsed(first + last), SavePoint(first + count, position));
      }
    }
  }

  /** Checkpoint `p` is due in block `b` of `blocks` after its transaction
      `t`: the check after that transaction answered yes, and `p` saves
      block `b`'s position with every entry up to that transaction
      enqueued. Resuming from it reads block `b` again from its start, so
      no entry is skipped. */
  ghost predicate DueSave(blocks: seq<StoredBlock>, elapsed: nat -> bool, b: int, t: int, p: SavePoint) {
    && 0 <= b < |blocks| && 0 <= t < |blocks[b].transactions|
    && var first := |AllEntries(blocks[..b])|;
       elapsed(first + t) && p == SavePoint(first + t + 1, blocks[b].position)
  }

  lemma DueSaveExtend(blocks: seq<StoredBlock>, elapsed: nat -> bool, n: nat, b: int, t: int, p: SavePoint)
    requires n <= |blocks|
    requires DueSave(blocks[..n], elapsed, b, t, p)
    ensures DueSave(blocks, elapsed, b, t, p)
  {
    assert blocks[..n][..b] == blocks[..b];
  }

  /** Every periodic checkpoint of a run is a due one. */
  lemma {:induction false} PeriodicSavesAreDue(blocks: seq<StoredBlock>, elapsed: nat -> bool, p: SavePoint)
    requires p in PeriodicSaves(blocks, elapsed)
    ensures exists b, t :: DueSave(blocks, elapsed, b, t, p)
    decreases |blocks|
  {
    var n := |blocks| - 1;
    var front, last := blocks[..n], blocks[n];
    var first := |AllEntries(front)|;
    if p in PeriodicSaves(front, elapsed) {
      PeriodicSavesAreDue(front, elapsed, p);
      var b, t :| DueSave(front, elapsed, b, t, p);
      DueSaveExtend(blocks, elapsed, n, b, t, p);
    } else {
      StepSavesMembers(last.position, first, |last.transactions|, elapsed, p);
      var t: nat :| t < |last.transactions| && DueStep(last.position, first, elapsed, t, p);
      assert DueSave(blocks, elapsed, n, t, p);
    }
  }

  /** Every due checkpoint is among the periodic checkpoints of the run. */
  lemma {:induction false} DueSavesArePeriodic(blocks: seq<StoredBlock>, elapsed: nat -> bool, b: int, t: int,
                                               p: SavePoint)
    requires DueSave(blocks, elapsed, b, t, p)
    ensures p in PeriodicSaves(blocks, elapsed)
    decreases |blocks|
  {
    var n := |blocks| - 1;
    var front, last := blocks[..n], blocks[n];
    if b < n {
      assert blocks[..b] == front[..b];
      assert DueSave(front, elapsed, b, t, p);
      DueSavesArePeriodic(front, elapsed, b, t, p);
    } else {
      StepSavesMembers(last.position, |AllEntries(front)|, |last.transactions|, elapsed, p);
      assert DueStep(last.position, |AllEntries(front)|, elapsed, t, p);
    }
  }

  /** The periodic checkpoints of a run are exactly the due ones. */
  lemma PeriodicSavesMembers(blocks: seq<StoredBlock>, elapsed: nat -> bool, p: SavePoint)
    ensures p in PeriodicSaves(blocks, elapsed) <==> exists b, t :: DueSave(blocks, elapsed, b, t, p)
  {
    if p in PeriodicSaves(blocks, elapsed) {
      PeriodicSavesAreDue(blocks, elapsed, p);
    }
    if exists b, t :: DueSave(blocks, elapsed, b, t, p) {
      var b, t :| DueSave(blocks, elapsed, b, t, p);
      DueSavesArePeriodic(blocks, elapsed, b, t, p);
    }
  }

  /** When a checkpoint is taken, the enqueued entries are exactly the
      first that many entries read (as a multiset: the order inside and
      across batches is not fixed). */
  ghost predicate FlushedPrefix(trace: seq<Event>, all: seq<IndexedTransaction>) {
    |Enqueued(trace)| <= |all| && multiset(Enqueued(trace)) == multiset(all[..|Enqueued(trace)|])
  }

  /** Every save directly follows a drain of the queue, and comes after
      every entry read so far has been enqueued, so no bucket holds
      anything then. */
  ghost predicate SavesAfterFlush(trace: seq<Event>, all: seq<IndexedTransaction>) {
    forall i :: 0 <= i < |trace| ==> SoundSaveAt(trace, i, all)
  }

  /** Event `i` of `trace`, if a save, follows a drain with every entry
      read so far enqueued. */
  ghost predicate SoundSaveAt(trace: seq<Event>, i: nat, all: seq<IndexedTransaction>)
    requires i < |trace|
  {
    trace[i].Save? ==> 1 <= i && trace[i - 1] == Drain && FlushedPrefix(trace[..i], all)
  }

  predicate NoStop(trace: seq<Event>) {
    forall i :: 0 <= i < |trace| ==> trace[i] != Stop
  }

  /** Extending a trace by events that are not saves keeps its checkpoints
      and their soundness. */
  lemma {:induction false} ExtendWithoutSave(before: seq<Event>, trace: seq<Event>, all: seq<IndexedTransaction>)
    requires |before| <= |trace| && trace[..|before|] == before
    requires forall i :: |before| <= i < |trace| ==> !trace[i].Save?
    requires SavesAfterFlush(before, all)
    ensures Saves(trace) == Saves(before)
    ensures SavesAfterFlush(trace, all)
    decreases |trace|
  {
    if |trace| > |before| {
      var front := trace[..|trace| - 1];
      assert front[..|before|] == before;
      ExtendWithoutSave(before, front, all);
      forall i | 0 <= i < |trace| ensures SoundSaveAt(trace, i, all) {
        if trace[i].Save? {
          assert i < |front| && SoundSaveAt(front, i, all);
          assert front[i - 1] == trace[i - 1];
          assert front[..i] == trace[..i];
        }
      }
    } else {
      assert trace == before;
    }
  }

  /** Appending a save right after a drain, with every entry read so far
      enqueued, keeps the saves sound and adds its checkpoint. */
  lemma AppendSave(trace: seq<Event>, flushed: seq<Event>, position: Cursor, all: seq<IndexedTransaction>)
    requires SavesAfterFlush(trace, all)
    requires trace == flushed + [Drain]
    requires FlushedPrefix(trace, all)
    requires PartialBatchesFlushed(trace) && DrainsAnswered(flushed)
    ensures Saves(trace + [Save(position)]) == Saves(trace) + [SavePoint(|Enqueued(trace)|, position)]
    ensures SavesAfterFlush(trace + [Save(position)], all)
    ensures Settled(trace + [Save(position)])
  {
    AnswerDrain(flushed, Save(position));
    var t := trace + [Save(position)];
    assert t[..|trace|] == trace;
    forall i | 0 <= i < |t| ensures SoundSaveAt(t, i, all) {
      if i < |trace| && t[i].Save? {
        assert SoundSaveAt(trace, i, all);
        assert t[..i] == trace[..i];
      }
    }
  }

  /** With nothing pending, the entries read so far being a prefix of all
      entries makes the enqueued ones a flushed prefix. */
  lemma NothingPendingIsFlushed(trace: seq<Event>, added: seq<IndexedTransaction>, all: seq<IndexedTransaction>)
    requires multiset(added) == multiset(Enqueued(trace))
    requires |added| <= |all| && added == all[..|added|]
    ensures FlushedPrefix(trace, all)
  {
    assert |multiset(added)| == |added| && |multiset(Enqueued(trace))| == |Enqueued(trace)|;
  }

  /** `read` is the first `|read|` entries of `all`. */
  predicate ReadPrefix(read: seq<IndexedTransaction>, all: seq<IndexedTransaction>) {
    |read| <= |all| && all[..|read|] == read
  }

  /** One more transaction of a block: the entries read grow by its
      confirmed entry. */
  lemma ReadNextOfBlock(block: StoredBlock, done: seq<IndexedTransaction>, t: nat,
                        readBefore: seq<IndexedTransaction>, readAfter: seq<IndexedTransaction>)
    requires t < |block.transactions|
    requires readBefore == done + BlockEntries(block)[..t]
    requires readAfter == readBefore + [ConfirmedEntry(block.transactions[t], block.hash)]
    ensures readAfter == done + BlockEntries(block)[..t + 1]
    ensures |readAfter| == |done| + t + 1
  {
    var entries := BlockEntries(block);
    assert entries[t] == ConfirmedEntry(block.transactions[t], block.hash);
    assert entries[..t + 1] == entries[..t] + [entries[t]];
  }

  /** One more transaction of a block: the checkpoints grow by the one its
      check took, if any. */
  lemma SavesNextOfBlock(position: Cursor, first: nat, elapsed: nat -> bool, saves: seq<SavePoint>, t: nat,
                         savesBefore: seq<SavePoint>, savesAfter: seq<SavePoint>)
    requires savesBefore == saves + StepSaves(position, first, t, elapsed)
    requires savesAfter == savesBefore + SaveIf(elapsed(first + t), SavePoint(first + t + 1, position))
    ensures savesAfter == saves + StepSaves(position, first, t + 1, elapsed)
  {
    StepSavesNext(position, first, t, elapsed);
    ConcatAssoc(saves, StepSaves(position, first, t, elapsed),
                SaveIf(elapsed(first + t), SavePoint(first + t + 1, position)));
  }

  /** Reading the next entry of a block keeps the entries read a prefix. */
  lemma ReadPrefixStep(done: seq<IndexedTransaction>, entries: seq<IndexedTransaction>, t: nat,
                       all: seq<IndexedTransaction>)
    requires t < |entries| && ReadPrefix(done + entries, all)
    ensures ReadPrefix(done + entries[..t + 1], all)
    ensures done + entries[..t + 1] == (done + entries[..t]) + [entries[t]]
  {
    assert entries[..t + 1] == entries[..t] + [entries[t]];
    assert (done + entries)[..|done| + t + 1] == done + entries[..t + 1];
    assert all[..|done| + t + 1] == all[..|done| + |entries|][..|done| + t + 1];
  }

  /** What a run has read and saved after the first `t` transactions of
      `block`: `done` is what was read before the block, `first` its
      length, and `saves` the checkpoints taken before it. */
  ghost predicate InBlock(trace: seq<Event>, added: seq<IndexedTransaction>, block: StoredBlock, first: nat,
                          elapsed: nat -> bool, all: seq<IndexedTransaction>, done: seq<IndexedTransaction>,
                          saves: seq<SavePoint>, t: nat)
  {
    && t <= |block.transactions|
    && first == |done|
    && ReadPrefix(done + BlockEntries(block), all)
    && added == done + BlockEntries(block)[..t]
    && Saves(trace) == saves + StepSaves(block.position, first, t, elapsed)
  }

  /** The entry of the next transaction of the block keeps the entries
      read a prefix of all entries. */
  lemma InBlockNextEntry(trace: seq<Event>, added: seq<IndexedTransaction>, block: StoredBlock, first: nat,
                         elapsed: nat -> bool, all: seq<IndexedTransaction>, done: seq<IndexedTransaction>,
                         saves: seq<SavePoint>, t: nat)
    requires InBlock(trace, added, block, first, elapsed, all, done, saves, t) && t < |block.transactions|
    ensures ReadPrefix(added + [ConfirmedEntry(block.transactions[t], block.hash)], all)
  {
    ReadPrefixStep(done, BlockEntries(block), t, all);
    assert BlockEntries(block)[t] == ConfirmedEntry(block.transactions[t], block.hash);
  }

  /** Processing the next transaction of the block, with its entry added
      and its checkpoint taken when due, advances the state by one
      transaction. */
  lemma InBlockStep(trace: seq<Event>, added: seq<IndexedTransaction>, after: seq<Event>,
                    addedAfter: seq<IndexedTransaction>, block: StoredBlock, first: nat, elapsed: nat -> bool,
                    all: seq<IndexedTransaction>, done: seq<IndexedTransaction>, saves: seq<SavePoint>, t: nat)
    requires InBlock(trace, added, block, first, elapsed, all, done, saves, t) && t < |block.transactions|
    requires addedAfter == added + [ConfirmedEntry(block.transactions[t], block.hash)]
    requires Saves(after) == Saves(trace) + SaveIf(elapsed(first + t), SavePoint(|addedAfter|, block.position))
    ensures InBlock(after, addedAfter, block, first, elapsed, all, done, saves, t + 1)
  {
    ReadNextOfBlock(block, done, t, added, addedAfter);
    var point := SavePoint(|addedAfter|, block.position);
    assert point == SavePoint(first + t + 1, block.position);
    SavesNextOfBlock(block.position, first, elapsed, saves, t, Saves(trace), Saves(after));
  }

  /** Extending a trace by events other than `Stop` keeps it free of
      `Stop`. */
  lemma NoStopExtend(before: seq<Event>, trace: seq<Event>)
    requires NoStop(before) && |before| <= |trace| && trace[..|before|] == before
    requires forall i :: |before| <= i < |trace| ==> trace[i] != Stop
    ensures NoStop(trace)
  {
    forall i | 0 <= i < |before| ensures trace[i] != Stop {
      assert trace[i] == trace[..|before|][i];
    }
  }

  /** A flush of every bucket followed by a drain adds no save, keeps the
      trace free of `Stop`, and leaves every entry read so far enqueued. */
  lemma FlushedThenDrained(snapshot: map<UShort, Batch>, order: seq<UShort>, before: seq<Event>,
                           flushed: seq<Event>, txCount: int, added: seq<IndexedTransaction>,
                           all: seq<IndexedTransaction>)
    requires FlushedInSomeOrder(snapshot, order, before, flushed)
    requires SavesAfterFlush(before, all) && NoStop(before)
    requires ProducerInvariant(map[], flushed, txCount, added, BatchSize)
    requires ReadPrefix(added, all)
    ensures SavesAfterFlush(flushed + [Drain], all) && NoStop(flushed + [Drain])
    ensures Saves(flushed + [Drain]) == Saves(before)
    ensures FlushedPrefix(flushed + [Drain], all)
    ensures txCount == |added|
  {
    var drained := flushed + [Drain];
    assert drained[..|before|] == before;
    forall i | |before| <= i < |drained| ensures drained[i].Enqueue? || drained[i] == Drain {
      if i < |flushed| {
        assert flushed[|before| + (i - |before|)] == Enqueue(snapshot[order[i - |before|]]);
      }
    }
    ExtendWithoutSave(before, drained, all);
    NoStopExtend(before, drained);
    EnqueuedAppend(flushed, Drain);
    assert Enqueued(drained) == Enqueued(flushed);
    assert Pending(map[]) == multiset{};
    SameCountsIff(multiset(added), multiset(Enqueued(flushed)) + Pending(map[]));
    assert multiset(added) == multiset(Enqueued(drained));
    NothingPendingIsFlushed(drained, added, all);
    assert |multiset(added)| == |added|;
  }

  /** How a run ends: every batch is one partition of 1 to 100 entries;
      every entry read was enqueued exactly once and counted; the
      checkpoints are the `periodic` ones and then one with every entry
      enqueued at `last`; the last three events are the drain, the stop
      and that save; every earlier save was taken right after a drain of a
      full flush, before any stop; every drain is answered by a save or the
      stop; and every batch of fewer than 100 entries belongs to a flush of
      every bucket, so the others are the buckets that reached 100. */
  ghost predicate RunComplete(trace: seq<Event>, txCount: int, all: seq<IndexedTransaction>,
                              periodic: seq<SavePoint>, last: Cursor)
  {
    && BatchesWellFormed(trace)
    && multiset(Enqueued(trace)) == multiset(all) && txCount == |all|
    && Saves(trace) == periodic + [SavePoint(|all|, last)]
    && |trace| >= 3
    && trace[|trace| - 3] == Drain && trace[|trace| - 2] == Stop && trace[|trace| - 1] == Save(last)
    && SavesAfterFlush(trace[..|trace| - 1], all) && NoStop(trace[..|trace| - 2])
    && Settled(trace)
  }

  /** The producer never splits one partition into two batches without a
      checkpoint or a full bucket between: two single-entry batches of the
      same partition, flushed together before the final drain, are not a
      complete run, whatever the entries read and the checkpoints. */
  lemma SplitPartitionRejected(e1: IndexedTransaction, e2: IndexedTransaction, last: Cursor, txCount: int,
                               all: seq<IndexedTransaction>, periodic: seq<SavePoint>)
    requires Key(e1) == Key(e2)
    ensures !RunComplete([Enqueue([e1]), Enqueue([e2]), Drain, Stop, Save(last)], txCount, all, periodic, last)
  {
    var t := [Enqueue([e1]), Enqueue([e2]), Drain, Stop, Save(last)];
    assert BatchKey(t[0]) == BatchKey(t[1]);
    assert forall j :: FlushRun(t, 0, j) ==> j == 2;
    assert PartialBatch(t[0]);
  }

  /** The end of a run: after the final drain, with every entry read
      enqueued, a stop and a save complete the run. */
  lemma StoppedThenSaved(drained: seq<Event>, flushed: seq<Event>, txCount: int, position: Cursor,
                         all: seq<IndexedTransaction>, periodic: seq<SavePoint>)
    requires SavesAfterFlush(drained, all) && NoStop(drained) && BatchesWellFormed(drained)
    requires FlushedPrefix(drained, all) && |Enqueued(drained)| == |all| && txCount == |all|
    requires drained == flushed + [Drain]
    requires PartialBatchesFlushed(drained) && DrainsAnswered(flushed)
    requires Saves(drained) == periodic
    ensures RunComplete(drained + [Stop] + [Save(position)], txCount, all, periodic, position)
  {
    var stopped := drained + [Stop];
    var t := stopped + [Save(position)];
    SavesAppend(drained, Stop);
    SavesAppend(stopped, Save(position));
    EnqueuedAppend(drained, Stop);
    EnqueuedAppend(stopped, Save(position));
    assert t[..|t| - 1] == stopped;
    assert stopped[..|stopped| - 1] == drained;
    assert all[..|Enqueued(drained)|] == all;
    assert stopped[..|drained|] == drained;
    ExtendWithoutSave(drained, stopped, all);
    StopThenSaveKeepsBatches(drained, flushed, position);
  }

  /** The stop and the final save enqueue nothing and answer the final
      drain, so the batches stay well formed and the run settled. */
  lemma StopThenSaveKeepsBatches(drained: seq<Event>, flushed: seq<Event>, position: Cursor)
    requires BatchesWellFormed(drained)
    requires drained == flushed + [Drain]
    requires PartialBatchesFlushed(drained) && DrainsAnswered(flushed)
    ensures BatchesWellFormed(drained + [Stop] + [Save(position)])
    ensures Settled(drained + [Stop] + [Save(position)])
  {
    var t := drained + [Stop] + [Save(position)];
    AnswerDrain(flushed, Stop);
    AppendSettled(drained + [Stop], Save(position));
    forall i | 0 <= i < |t| && t[i].Enqueue? ensures WellFormedBatch(t[i].batch) {
      assert i < |drained| && t[i] == drained[i];
    }
  }

  /** After a run, with every checkpoint written in turn to the "tx"
      progress file, the next run resumes from the last position read. */
  lemma TxRunResumesAtLastPosition(files: map<string, string>, progressFile: string,
                                   parse: string -> Option<Cursor>, format: Cursor -> string,
                                   start: Cursor, blocks: seq<StoredBlock>, elapsed: nat -> bool)
    requires parse(format(LastPosition(start, blocks))) == Some(LastPosition(start, blocks))
    ensures var saved := SavedPositions(ExpectedSaves(start, blocks, elapsed));
            GetPosition(WriteAll(files, saved, Some(TxStream), progressFile, format), Some(TxStream), progressFile, parse)
            == LastPosition(start, blocks)
  {
    var saved := SavedPositions(ExpectedSaves(start, blocks, elapsed));
    assert saved[|saved| - 1] == LastPosition(start, blocks);
    ResumeFromLastSave(files, saved, Some(TxStream), progressFile, parse, format);
  }
}
