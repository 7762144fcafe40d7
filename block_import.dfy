/** The producer side of the block pipeline: every block the store yields
    is put on the work queue in store order, and when the save interval
    has passed the queue is drained and the position of the block about to
    be queued is saved. The workers that upload the blocks are not
    modelled; the queue is the append-only trace of what the producer
    did. */
module BlockImport {

  import opened Wrappers
  import opened BlockStore
  import opened Checkpoints

  /** What the block producer does, in order. */
  datatype BlockEvent =
    | Enqueue(block: StoredBlock)  // blocks.Add(block)
    | Drain                       // WaitProcessed: the queue was seen empty
    | Stop                        // stop.Cancel() and Task.WaitAll(tasks)
    | Save(position: Cursor)      // SetPosition(lastPosition)

  /** The events for the block at index `i`: when the interval check
      answers yes, a drain and a save of the block's own position, then
      the block is queued. */
  function BlockStep(i: nat, block: StoredBlock, elapsed: nat -> bool): seq<BlockEvent> {
    (if elapsed(i) then [Drain, Save(block.position)] else []) + [Enqueue(block)]
  }

  /** The events for a run of blocks, in store order. */
  function BlockEvents(blocks: seq<StoredBlock>, elapsed: nat -> bool): seq<BlockEvent> {
    if blocks == [] then []
    else BlockEvents(blocks[..|blocks| - 1], elapsed) + BlockStep(|blocks| - 1, blocks[|blocks| - 1], elapsed)
  }

  /** A whole run: the blocks, then the final drain, stop and save of the
      last position read. */
  function BlockRun(start: Cursor, blocks: seq<StoredBlock>, elapsed: nat -> bool): seq<BlockEvent> {
    BlockEvents(blocks, elapsed) + [Drain, Stop, Save(LastPosition(start, blocks))]
  }

  /** The blocks queued in `trace`, in order. */
  function Queued(trace: seq<BlockEvent>): seq<StoredBlock> {
    if trace == [] then []
    else
      var last := trace[|trace| - 1];
      Queued(trace[..|trace| - 1]) + (if last.Enqueue? then [last.block] else [])
  }

  lemma {:induction false} QueuedAppend(a: seq<BlockEvent>, b: seq<BlockEvent>)
    ensures Queued(a + b) == Queued(a) + Queued(b)
    decreases |b|
  {
    if b == [] {
      assert a + b == a;
    } else {
      var front := b[..|b| - 1];
      assert (a + b)[..|a + b| - 1] == a + front;
      QueuedAppend(a, front);
    }
  }

  lemma BlockEventsStep(blocks: seq<StoredBlock>, n: nat, elapsed: nat -> bool)
    requires n < |blocks|
    ensures BlockEvents(blocks[..n + 1], elapsed) == BlockEvents(blocks[..n], elapsed) + BlockStep(n, blocks[n], elapsed)
  {
    assert blocks[..n + 1][..n] == blocks[..n];
  }

  /** The producer side of `StartBlockImportToAzure`: resume from the
      block checkpoint, queue every block the store yields, checking the
      interval before each, then drain, stop the workers and save the last
      position read. */
  method ImportBlocks(files: map<string, string>, progressFile: string, parse: string -> Option<Cursor>,
                      blocks: seq<StoredBlock>, elapsed: nat -> bool)
    returns (startPosition: Cursor, trace: seq<BlockEvent>)
    ensures startPosition == GetPosition(files, None, progressFile, parse)
    ensures trace == BlockRun(startPosition, blocks, elapsed)
  {
    startPosition := GetPosition(files, None, progressFile, parse);
    var lastPosition := startPosition;
    trace := [];
    var blockCount := 0;
    while blockCount < |blocks|
      invariant 0 <= blockCount <= |blocks|
      invariant trace == BlockEvents(blocks[..blockCount], elapsed)
      invariant lastPosition == LastPosition(startPosition, blocks[..blockCount])
    {
      var block := blocks[blockCount];
      lastPosition := block.position;
      if elapsed(blockCount) {
        trace := trace + [Drain];
        trace := trace + [Save(lastPosition)];
      }
      trace := trace + [Enqueue(block)];
      BlockEventsStep(blocks, blockCount, elapsed);
      blockCount := blockCount + 1;
    }
    assert blocks[..blockCount] == blocks;
    trace := trace + [Drain];
    trace := trace + [Stop];
    trace := trace + [Save(lastPosition)];
  }

  // ---------------------------------------------------------------------
  // What a run guarantees

  /** A trace with no enqueue event queues nothing. */
  lemma {:induction false} NothingQueued(t: seq<BlockEvent>)
    requires forall i :: 0 <= i < |t| ==> !t[i].Enqueue?
    ensures Queued(t) == []
    decreases |t|
  {
    if t != [] {
      NothingQueued(t[..|t| - 1]);
    }
  }

  /** The one block queued by the events for block `i`. */
  lemma StepQueuesItsBlock(i: nat, block: StoredBlock, elapsed: nat -> bool)
    ensures Queued(BlockStep(i, block, elapsed)) == [block]
  {
    var saves: seq<BlockEvent> := if elapsed(i) then [Drain, Save(block.position)] else [];
    NothingQueued(saves);
    QueuedAppend(saves, [Enqueue(block)]);
    assert Queued([Enqueue(block)]) == Queued([]) + [block];
  }

  /** Every block is queued exactly once, in store order. */
  lemma {:induction false} EachBlockQueuedOnce(blocks: seq<StoredBlock>, elapsed: nat -> bool)
    ensures Queued(BlockEvents(blocks, elapsed)) == blocks
    decreases |blocks|
  {
    if blocks != [] {
      var front := blocks[..|blocks| - 1];
      var last := blocks[|blocks| - 1];
      var before, step := BlockEvents(front, elapsed), BlockStep(|blocks| - 1, last, elapsed);
      assert BlockEvents(blocks, elapsed) == before + step;
      EachBlockQueuedOnce(front, elapsed);
      QueuedAppend(before, step);
      StepQueuesItsBlock(|blocks| - 1, last, elapsed);
      assert Queued(before + step) == front + [last];
      assert blocks == front + [last];
    }
  }

  /** The whole run also queues every block once, in order, and ends by
      draining the queue, stopping the workers and saving the last
      position read (the start position when the store yielded
      nothing). */
  lemma RunQueuesEachBlockOnce(start: Cursor, blocks: seq<StoredBlock>, elapsed: nat -> bool)
    ensures Queued(BlockRun(start, blocks, elapsed)) == blocks
    ensures var t := BlockRun(start, blocks, elapsed);
            && t[|t| - 3] == Drain && t[|t| - 2] == Stop
            && t[|t| - 1] == Save(if blocks == [] then start else blocks[|blocks| - 1].position)
  {
    EachBlockQueuedOnce(blocks, elapsed);
    var tail: seq<BlockEvent> := [Drain, Stop, Save(LastPosition(start, blocks))];
    NothingQueued(tail);
    QueuedAppend(BlockEvents(blocks, elapsed), tail);
  }

  /** Event `k` of `trace` is the save taken for block `i`: it follows a
      drain, it saves block `i`'s position, the very next event queues
      block `i`, and exactly the blocks before `i` were queued before it.
      Resuming from that position therefore reads block `i` again and
      skips none, provided the store's enumeration from a position starts
      with the block at that position (an assumption about the block
      store, which is not part of this model). */
  ghost predicate SaveOfBlock(trace: seq<BlockEvent>, blocks: seq<StoredBlock>, k: nat, i: nat) {
    && 1 <= k && k + 1 < |trace| && i < |blocks|
    && trace[k - 1] == Drain && trace[k] == Save(blocks[i].position) && trace[k + 1] == Enqueue(blocks[i])
    && Queued(trace[..k]) == blocks[..i]
  }

  /** A save for a block stays one when events are appended and the block
      sequence is extended. */
  lemma SaveOfBlockExtend(trace: seq<BlockEvent>, extra: seq<BlockEvent>, front: seq<StoredBlock>,
                          blocks: seq<StoredBlock>, k: nat, i: nat)
    requires SaveOfBlock(trace, front, k, i)
    requires |front| <= |blocks| && blocks[..|front|] == front
    ensures SaveOfBlock(trace + extra, blocks, k, i)
  {
    var t := trace + extra;
    assert t[..k] == trace[..k];
    assert blocks[..i] == front[..i];
    assert blocks[i] == front[i];
  }

  /** The events of the last block, when its check answered yes, hold its
      save right after the events of the blocks before it and a drain. */
  lemma LastBlockSave(blocks: seq<StoredBlock>, elapsed: nat -> bool)
    requires blocks != [] && elapsed(|blocks| - 1)
    ensures SaveOfBlock(BlockEvents(blocks, elapsed), blocks, |BlockEvents(blocks[..|blocks| - 1], elapsed)| + 1,
                        |blocks| - 1)
  {
    var n := |blocks| - 1;
    var front, last := blocks[..n], blocks[n];
    var before := BlockEvents(front, elapsed);
    var t := BlockEvents(blocks, elapsed);
    assert t == before + [Drain, Save(last.position), Enqueue(last)];
    var k := |before| + 1;
    EachBlockQueuedOnce(front, elapsed);
    assert t[..k] == before + [Drain];
    NothingQueued([Drain]);
    QueuedAppend(before, [Drain]);
  }

  /** Every save in `trace` is taken for a block whose interval check
      answered yes. */
  ghost predicate SavesForDueBlocks(trace: seq<BlockEvent>, blocks: seq<StoredBlock>, elapsed: nat -> bool) {
    forall k :: 0 <= k < |trace| && trace[k].Save? ==> exists i :: elapsed(i) && SaveOfBlock(trace, blocks, k, i)
  }

  /** Every block whose interval check answered yes has its save in
      `trace`. */
  ghost predicate DueBlocksSaved(trace: seq<BlockEvent>, blocks: seq<StoredBlock>, elapsed: nat -> bool) {
    forall i :: 0 <= i < |blocks| && elapsed(i) ==> exists k :: SaveOfBlock(trace, blocks, k, i)
  }

  /** Every save in the block events is taken for a block whose interval
      check answered yes. */
  lemma {:induction false} SavesAreForTheirBlock(blocks: seq<StoredBlock>, elapsed: nat -> bool)
    ensures SavesForDueBlocks(BlockEvents(blocks, elapsed), blocks, elapsed)
    decreases |blocks|
  {
    if blocks != [] {
      var n := |blocks| - 1;
      var front := blocks[..n];
      var before, step := BlockEvents(front, elapsed), BlockStep(n, blocks[n], elapsed);
      var t := before + step;
      assert BlockEvents(blocks, elapsed) == t;
      assert blocks[..|front|] == front;
      SavesAreForTheirBlock(front, elapsed);
      forall k | 0 <= k < |t| && t[k].Save?
        ensures exists i :: elapsed(i) && SaveOfBlock(t, blocks, k, i)
      {
        if k < |before| {
          assert before[k] == t[k];
          var i :| elapsed(i) && SaveOfBlock(before, front, k, i);
          SaveOfBlockExtend(before, step, front, blocks, k, i);
        } else {
          assert elapsed(n) && k == |before| + 1;
          LastBlockSave(blocks, elapsed);
        }
      }
    }
  }

  /** Every block whose interval check answered yes gets its save. */
  lemma {:induction false} EveryDueBlockIsSaved(blocks: seq<StoredBlock>, elapsed: nat -> bool)
    ensures DueBlocksSaved(BlockEvents(blocks, elapsed), blocks, elapsed)
    decreases |blocks|
  {
    if blocks != [] {
      var n := |blocks| - 1;
      var front := blocks[..n];
      var before, step := BlockEvents(front, elapsed), BlockStep(n, blocks[n], elapsed);
      var t := before + step;
      assert BlockEvents(blocks, elapsed) == t;
      assert blocks[..|front|] == front;
      EveryDueBlockIsSaved(front, elapsed);
      forall i | 0 <= i < |blocks| && elapsed(i)
        ensures exists k :: SaveOfBlock(t, blocks, k, i)
      {
        if i < n {
          var k :| SaveOfBlock(before, front, k, i);
          SaveOfBlockExtend(before, step, front, blocks, k, i);
        } else {
          LastBlockSave(blocks, elapsed);
        }
      }
    }
  }

  /** In a whole run, every save but the last is the save of a block
      whose interval check answered yes. */
  lemma RunSavesAreForTheirBlock(start: Cursor, blocks: seq<StoredBlock>, elapsed: nat -> bool)
    ensures var t := BlockRun(start, blocks, elapsed);
            forall k :: 0 <= k < |t| - 1 && t[k].Save? ==> exists i :: elapsed(i) && SaveOfBlock(t, blocks, k, i)
  {
    var before := BlockEvents(blocks, elapsed);
    var t := BlockRun(start, blocks, elapsed);
    SavesAreForTheirBlock(blocks, elapsed);
    assert blocks[..|blocks|] == blocks;
    forall k | 0 <= k < |t| - 1 && t[k].Save?
      ensures exists i :: elapsed(i) && SaveOfBlock(t, blocks, k, i)
    {
      assert k < |before| && before[k] == t[k];
      var i :| elapsed(i) && SaveOfBlock(before, blocks, k, i);
      SaveOfBlockExtend(before, [Drain, Stop, Save(LastPosition(start, blocks))], blocks, blocks, k, i);
    }
  }

  /** Queuing only ever adds blocks: a longer prefix of a trace has queued
      at least as many. */
  lemma QueuedGrows(t: seq<BlockEvent>, j: nat, k: nat)
    requires j <= k <= |t|
    ensures |Queued(t[..j])| <= |Queued(t[..k])|
  {
    assert t[..k] == t[..j] + t[j..k];
    QueuedAppend(t[..j], t[j..k]);
  }

  /** When the store yields blocks in ascending order from the start
      position, the checkpoints of a run never move backwards: every
      saved position is at or after the start, and each is at or before
      the next. */
  lemma CheckpointsAscend(start: Cursor, blocks: seq<StoredBlock>, elapsed: nat -> bool, j: nat, k: nat)
    requires Ascending(start, blocks)
    requires var t := BlockRun(start, blocks, elapsed);
             j < k < |t| && t[j].Save? && t[k].Save?
    ensures var t := BlockRun(start, blocks, elapsed);
            AtOrBefore(start, t[j].position) && AtOrBefore(t[j].position, t[k].position)
  {
    var t := BlockRun(start, blocks, elapsed);
    RunSavesAreForTheirBlock(start, blocks, elapsed);
    RunQueuesEachBlockOnce(start, blocks, elapsed);
    assert j < |t| - 1;
    var i :| elapsed(i) && SaveOfBlock(t, blocks, j, i);
    if k < |t| - 1 {
      var i' :| elapsed(i') && SaveOfBlock(t, blocks, k, i');
      QueuedGrows(t, j, k);
      assert i <= i';
    } else {
      assert t[k].position == blocks[|blocks| - 1].position;
    }
  }

  /** The cursors saved in `trace`, in order. */
  function SavedCursors(trace: seq<BlockEvent>): seq<Cursor> {
    if trace == [] then []
    else
      var last := trace[|trace| - 1];
      SavedCursors(trace[..|trace| - 1]) + (if last.Save? then [last.position] else [])
  }

  /** After a run, with every save written in turn to the block progress
      file, the next run resumes from the last position read. */
  lemma BlockRunResumesAtLastPosition(files: map<string, string>, progressFile: string,
                                      parse: string -> Option<Cursor>, format: Cursor -> string,
                                      start: Cursor, blocks: seq<StoredBlock>, elapsed: nat -> bool)
    requires parse(format(LastPosition(start, blocks))) == Some(LastPosition(start, blocks))
    ensures var saved := SavedCursors(BlockRun(start, blocks, elapsed));
            GetPosition(WriteAll(files, saved, None, progressFile, format), None, progressFile, parse)
            == LastPosition(start, blocks)
  {
    var t := BlockRun(start, blocks, elapsed);
    assert t[..|t| - 1] + [t[|t| - 1]] == t;
    var saved := SavedCursors(t);
    assert saved[|saved| - 1] == LastPosition(start, blocks);
    ResumeFromLastSave(files, saved, None, progressFile, parse, format);
  }
}
