/** The vocabulary of the local block store, which both pipelines read:
    hashes, positions in the block files, and the stored blocks the store
    enumerates. The store itself (file format, reading) is not modelled. */
module BlockStore {

  /** A byte, as the integer 0..255 that `GetByte` returns. */
  type byte = x: int | 0 <= x < 256

  /** A `uint256`, as its 32 bytes; `GetByte(i)` is element `i`. */
  type Hash256 = s: seq<byte> | |s| == 32 witness seq(32, _ => 0)

  /** A `DiskBlockPos`: a block file number and a byte offset in it. */
  datatype Cursor = Cursor(file: nat, position: nat)

  /** `new DiskBlockPos(0, 0)`: the start of the first block file. */
  const Origin := Cursor(0, 0)

  /** Cursor order: by file, then by offset. */
  predicate AtOrBefore(a: Cursor, b: Cursor) {
    a.file < b.file || (a.file == b.file && a.position <= b.position)
  }

  /** A `StoredBlock` as the importers use it: where it was read, the hash
      of its header and the hashes of its transactions, in block order. */
  datatype StoredBlock = StoredBlock(position: Cursor, hash: Hash256, transactions: seq<Hash256>)

  /** The store enumerates blocks in ascending cursor order from the start
      position on. */
  ghost predicate Ascending(start: Cursor, blocks: seq<StoredBlock>) {
    && (forall i :: 0 <= i < |blocks| ==> AtOrBefore(start, blocks[i].position))
    && (forall i, j :: 0 <= i < j < |blocks| ==> AtOrBefore(blocks[i].position, blocks[j].position))
  }

  /** `lastPosition` after the enumeration: the last block's position, or
      the start position when the store yielded nothing. */
  function LastPosition(start: Cursor, blocks: seq<StoredBlock>): Cursor {
    if blocks == [] then start else blocks[|blocks| - 1].position
  }
}
