/** The table entity written by the transaction pipeline: a transaction id
    mapped to a partition key (`CalculateKey`), the partition key stored as
    its decimal text (`Key`), and the row key that tells a mempool entry
    from a block-confirmed one. */
module IndexedTransactions {

  import opened Wrappers
  import opened BlockStore

  /** The range of a C# `ushort`. */
  type UShort = x: int | 0 <= x < 0x1_0000

  // ---------------------------------------------------------------------
  // Partition key

  /** The 32-bit C# expression `(b0 & 0xE0) + (b1 << 8)`, before the
      `ushort` cast. */
  function KeyExpression(b0: byte, b1: byte): bv32 {
    (((b0 as bv8) as bv32) & 0xE0) + (((b1 as bv8) as bv32) << 8)
  }

  /** Converting to `bv8` keeps a value modulo 256, so a byte keeps its
      value. */
  lemma ByteBits(b: byte)
    ensures (b as bv8) as int == b % 256
  {
  }

  lemma SmallModulus(b: byte)
    ensures b % 256 == b
  {
  }

  lemma KeyExpressionOfBits(x: bv8, y: bv8)
    ensures (((x as bv32) & 0xE0) + ((y as bv32) << 8)) as int
            == 32 * ((x as int) / 32) + 256 * (y as int)
  {
    assert ((x as bv32) & 0xE0) as int == 32 * ((x as int) / 32);
    assert ((y as bv32) << 8) as int == 256 * (y as int);
    assert (((x as bv32) & 0xE0) + ((y as bv32) << 8)) as int
        == ((x as bv32) & 0xE0) as int + ((y as bv32) << 8) as int;
  }

  /** The mask keeps the top three bits of byte 0 (rounds it down to a
      multiple of 32) and the shift multiplies byte 1 by 256. */
  lemma KeyExpressionValue(b0: byte, b1: byte)
    ensures KeyExpression(b0, b1) as int == 32 * (b0 as int / 32) + 256 * (b1 as int)
  {
    var x, y := b0 as bv8, b1 as bv8;
    ByteBits(b0);
    ByteBits(b1);
    SmallModulus(b0);
    SmallModulus(b1);
    KeyExpressionOfBits(x, y);
  }

  lemma MultipleOf32(m: nat)
    ensures (32 * m) % 32 == 0
  {
  }

  /** The key value is below 65536 (so the cast keeps it) and a multiple
      of 32. */
  lemma KeyValueFits(b0: byte, b1: byte)
    ensures var v := 32 * (b0 as int / 32) + 256 * (b1 as int);
            0 <= v < 0x1_0000 && v % 0x1_0000 == v && v % 32 == 0
  {
    var hi: int := b1;
    var lo: int := b0 / 32;
    assert 32 * (b0 as int / 32) + 256 * (b1 as int) == 32 * (lo + 8 * hi);
    assert 0 <= 32 * (lo + 8 * hi) <= 32 * 7 + 256 * 255;
    MultipleOf32(lo + 8 * hi);
  }

  /** The partition key of a transaction: the top three bits of byte 0 and
      all of byte 1 shifted up by 8, cast to `ushort` (which keeps the low
      16 bits). The value never needs the truncation: it is below 65536,
      a multiple of 32, and it is fixed by byte 1 and the top three bits of
      byte 0. */
  function CalculateKey(txId: Hash256): (k: UShort)
    ensures k == 32 * (txId[0] as int / 32) + 256 * (txId[1] as int)
    ensures k % 32 == 0
  {
    var b0, b1 := txId[0], txId[1];
    KeyExpressionValue(b0, b1);
    KeyValueFits(b0, b1);
    var v: int := KeyExpression(b0, b1) as int;
    assert v == 32 * (b0 as int / 32) + 256 * (b1 as int);
    v % 0x1_0000
  }

  /** Two transactions share a partition key exactly when they agree on
      byte 1 and on the top three bits of byte 0; nothing else of the hash
      matters. */
  lemma SameKeyIff(a: Hash256, b: Hash256)
    ensures CalculateKey(a) == CalculateKey(b) <==> a[1] == b[1] && a[0] / 32 == b[0] / 32
  {
    var x: int := a[0] / 32;
    var y: int := b[0] / 32;
    var p: int := a[1];
    var q: int := b[1];
    assert 0 <= x < 8 && 0 <= y < 8;
    if CalculateKey(a) == CalculateKey(b) {
      assert 32 * x + 256 * p == 32 * y + 256 * q;
      assert x - y == 8 * (q - p);
      assert p == q;
    }
  }

  /** The partition keys that can occur: the multiples of 32 below 65536. */
  function KeySpace(): set<int> {
    set j | 0 <= j < 2048 :: 32 * j
  }

  lemma {:induction false} MultiplesOf32Count(n: nat)
    ensures |set j | 0 <= j < n :: 32 * j| == n
  {
    if n > 0 {
      MultiplesOf32Count(n - 1);
      var smaller := set j | 0 <= j < n - 1 :: 32 * j;
      assert (set j | 0 <= j < n :: 32 * j) == smaller + {32 * (n - 1)};
      assert 32 * (n - 1) !in smaller;
    }
  }

  /** Every partition key lies in `KeySpace()`, every member of it is the key
      of some transaction, and it has exactly 2048 members. */
  lemma KeySpaceIsExact(h: Hash256, k: int)
    ensures CalculateKey(h) in KeySpace()
    ensures k in KeySpace() ==> exists g: Hash256 :: CalculateKey(g) == k
    ensures |KeySpace()| == 2048
  {
    var j0: int := (h[0] as int) / 32 + 8 * (h[1] as int);
    assert CalculateKey(h) == 32 * j0 && 0 <= j0 < 2048;
    MultiplesOf32Count(2048);
    if k in KeySpace() {
      var j: int :| 0 <= j < 2048 && k == 32 * j;
      var g: Hash256 := [(j % 8) * 32, j / 8] + seq(30, _ => 0);
      assert CalculateKey(g) == k;
    }
  }

  /** The worked example: a hash starting with bytes 0x3F, 0x01 has key
      0x120, stored as the text "288". */
  lemma KeyExample(h: Hash256)
    requires h[0] == 0x3F && h[1] == 0x01
    ensures CalculateKey(h) == 0x120
    ensures DecimalString(CalculateKey(h)) == "288"
  {
  }

  // ---------------------------------------------------------------------
  // Decimal text of a ushort (`ushort.ToString()` and `ushort.Parse`)

  predicate IsDigit(c: char) {
    '0' <= c <= '9'
  }

  predicate AllDigits(s: string) {
    forall i :: 0 <= i < |s| ==> IsDigit(s[i])
  }

  function DigitChar(d: nat): char
    requires d < 10
  {
    ('0' as int + d) as char
  }

  function DigitValue(c: char): nat
    requires IsDigit(c)
  {
    c as int - '0' as int
  }

  /** `n.ToString()` for an unsigned integer: plain decimal digits, with no
      leading zero except for zero itself. */
  function DecimalString(n: nat): (s: string)
    ensures |s| >= 1 && AllDigits(s)
    ensures s[0] == '0' ==> s == "0"
    decreases n
  {
    if n < 10 then [DigitChar(n)] else DecimalString(n / 10) + [DigitChar(n % 10)]
  }

  /** The number a string of decimal digits denotes. */
  function DecimalValue(s: string): nat
    requires AllDigits(s)
  {
    if s == [] then 0 else 10 * DecimalValue(s[..|s| - 1]) + DigitValue(s[|s| - 1])
  }

  /** `ushort.Parse(s)`: a non-empty string of decimal digits whose value
      fits in a `ushort`; anything else is the parse exception (`None`). */
  function ParseUShort(s: string): Option<UShort> {
    if |s| >= 1 && AllDigits(s) && DecimalValue(s) < 0x1_0000 then Some(DecimalValue(s)) else None
  }

  lemma {:induction false} DecimalValueOfString(n: nat)
    ensures DecimalValue(DecimalString(n)) == n
    decreases n
  {
    if n >= 10 {
      DecimalValueOfString(n / 10);
      var s := DecimalString(n);
      assert s[..|s| - 1] == DecimalString(n / 10);
    }
  }

  /** Parsing the decimal text of a key gives the key back. */
  lemma ParseDecimalRoundTrip(v: UShort)
    ensures ParseUShort(DecimalString(v)) == Some(v)
  {
    DecimalValueOfString(v);
  }

  /** Distinct keys are stored as distinct partition-key strings. */
  lemma DecimalStringInjective(a: UShort, b: UShort)
    ensures DecimalString(a) == DecimalString(b) <==> a == b
  {
    ParseDecimalRoundTrip(a);
    ParseDecimalRoundTrip(b);
  }

  // ---------------------------------------------------------------------
  // Hexadecimal text of a uint256 (`uint256.ToString()`)

  function HexChar(d: nat): char
    requires d < 16
  {
    if d < 10 then ('0' as int + d) as char else ('a' as int + d - 10) as char
  }

  function HexByte(b: byte): string {
    [HexChar(b / 16), HexChar(b % 16)]
  }

  /** Lower-case hex of a little-endian byte sequence, most significant
      (last) byte first. */
  function HexOfBytes(bs: seq<byte>): (s: string)
    ensures |s| == 2 * |bs|
  {
    if bs == [] then [] else HexOfBytes(bs[1..]) + HexByte(bs[0])
  }

  function ToHex(h: Hash256): (s: string)
    ensures |s| == 64
  {
    HexOfBytes(h)
  }

  lemma HexByteInjective(a: byte, b: byte)
    requires HexByte(a) == HexByte(b)
    ensures a == b
  {
    var ha, la := a / 16, a % 16;
    var hb, lb := b / 16, b % 16;
    assert HexChar(ha) == HexChar(hb) && HexChar(la) == HexChar(lb);
    assert ha == hb && la == lb;
    assert a == 16 * ha + la && b == 16 * hb + lb;
  }

  lemma {:induction false} HexOfBytesInjective(a: seq<byte>, b: seq<byte>)
    requires |a| == |b|
    requires HexOfBytes(a) == HexOfBytes(b)
    ensures a == b
  {
    if a != [] {
      var sa, sb := HexOfBytes(a), HexOfBytes(b);
      var n := |sa| - 2;
      assert sa[n..] == HexByte(a[0]) && sb[n..] == HexByte(b[0]);
      assert sa[..n] == HexOfBytes(a[1..]) && sb[..n] == HexOfBytes(b[1..]);
      HexByteInjective(a[0], b[0]);
      HexOfBytesInjective(a[1..], b[1..]);
      assert a == [a[0]] + a[1..] && b == [b[0]] + b[1..];
    }
  }

  /** Distinct ids have distinct hex strings. */
  lemma ToHexInjective(a: Hash256, b: Hash256)
    ensures ToHex(a) == ToHex(b) <==> a == b
  {
    if ToHex(a) == ToHex(b) {
      HexOfBytesInjective(a, b);
    }
  }

  // ---------------------------------------------------------------------
  // The entity

  /** The stored columns of an `IndexedTransaction`: the partition key text
      and the row key. */
  datatype IndexedTransaction = IndexedTransaction(partitionKey: string, rowKey: string)

  /** The `Key` getter: the partition key text parsed back as a `ushort`;
      `None` where `ushort.Parse` throws. */
  function Key(t: IndexedTransaction): Option<UShort> {
    ParseUShort(t.partitionKey)
  }

  /** The `Key` setter: stores the decimal text of `value`. Reading the key
      afterwards gives `value` back, and the row key is untouched. */
  function SetKey(t: IndexedTransaction, value: UShort): (r: IndexedTransaction)
    ensures r.partitionKey == DecimalString(value)
    ensures Key(r) == Some(value)
    ensures r.rowKey == t.rowKey
  {
    ParseDecimalRoundTrip(value);
    t.(partitionKey := DecimalString(value))
  }

  /** The default-constructed entity: both columns empty. */
  const Blank := IndexedTransaction("", "")

  /** `new IndexedTransaction(txId)`: the unconfirmed (mempool) entry. */
  function MempoolEntry(txId: Hash256): (r: IndexedTransaction)
    ensures Key(r) == Some(CalculateKey(txId))
    ensures r.partitionKey == DecimalString(CalculateKey(txId))
    ensures r.rowKey == ToHex(txId) + "-m"
  {
    SetKey(Blank, CalculateKey(txId)).(rowKey := ToHex(txId) + "-m")
  }

  /** `new IndexedTransaction(txId, blockId)`: the entry for the
      transaction as confirmed in block `blockId`. */
  function ConfirmedEntry(txId: Hash256, blockId: Hash256): (r: IndexedTransaction)
    ensures Key(r) == Some(CalculateKey(txId))
    ensures r.partitionKey == DecimalString(CalculateKey(txId))
    ensures r.rowKey == ToHex(txId) + "-b" + ToHex(blockId)
  {
    SetKey(Blank, CalculateKey(txId)).(rowKey := ToHex(txId) + "-b" + ToHex(blockId))
  }

  /** Two confirmed entries have the same row key exactly when they are
      for the same transaction in the same block: the same transaction in
      two blocks gives two rows, and re-importing a (transaction, block)
      pair hits the same row. */
  lemma ConfirmedRowKeyInjective(tx1: Hash256, block1: Hash256, tx2: Hash256, block2: Hash256)
    ensures ConfirmedEntry(tx1, block1).rowKey == ConfirmedEntry(tx2, block2).rowKey
            <==> tx1 == tx2 && block1 == block2
  {
    var r1, r2 := ConfirmedEntry(tx1, block1).rowKey, ConfirmedEntry(tx2, block2).rowKey;
    if r1 == r2 {
      assert r1[..64] == ToHex(tx1) && r2[..64] == ToHex(tx2);
      assert r1[66..] == ToHex(block1) && r2[66..] == ToHex(block2);
      ToHexInjective(tx1, tx2);
      ToHexInjective(block1, block2);
    }
  }

  /** A mempool row key is never a confirmed row key. */
  lemma MempoolRowKeyNotConfirmed(tx1: Hash256, tx2: Hash256, block: Hash256)
    ensures MempoolEntry(tx1).rowKey != ConfirmedEntry(tx2, block).rowKey
  {
    assert |MempoolEntry(tx1).rowKey| == 66;
    assert |ConfirmedEntry(tx2, block).rowKey| == 130;
  }

  /** The partition key depends on the transaction alone: both forms of the
      entry, and the confirmed entry for any block, land in the same
      partition. */
  lemma PartitionIndependentOfBlock(txId: Hash256, block1: Hash256, block2: Hash256)
    ensures MempoolEntry(txId).partitionKey == ConfirmedEntry(txId, block1).partitionKey
    ensures ConfirmedEntry(txId, block1).partitionKey == ConfirmedEntry(txId, block2).partitionKey
    ensures Key(ConfirmedEntry(txId, block1)) == Some(CalculateKey(txId))
  {
  }
}
