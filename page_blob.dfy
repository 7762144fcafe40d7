/** The page image uploaded for a block: the serialized bytes, resized to
    a whole number of 512-byte pages, as a page blob requires. */
module PageBlobs {

  import opened BlockStore

  const PageSize := 512

  /** The bytes added after `length` serialized bytes:
      `512 - length % 512`, or none when that is a whole page. */
  function PaddingLength(length: nat): (pad: nat)
    ensures pad < PageSize
    ensures (length + pad) % PageSize == 0
    ensures pad == 0 <==> length % PageSize == 0
  {
    var pad := PageSize - length % PageSize;
    if pad == PageSize then 0 else pad
  }

  /** The size of the uploaded page image. */
  function PaddedLength(length: nat): (n: nat)
    ensures n % PageSize == 0
    ensures length <= n < length + PageSize
    ensures length % PageSize == 0 ==> n == length
  {
    length + PaddingLength(length)
  }

  /** No smaller multiple of the page size holds `length` bytes. */
  lemma PaddedLengthIsLeast(length: nat, m: nat)
    requires m % PageSize == 0 && length <= m
    ensures PaddedLength(length) <= m
  {
  }

  /** `Array.Resize(ref buffer, n)`: the first `n` bytes, with zeros after
      the old end. */
  function Resize(buffer: seq<byte>, n: nat): (r: seq<byte>)
    ensures |r| == n
    ensures forall i :: 0 <= i < n && i < |buffer| ==> r[i] == buffer[i]
    ensures forall i :: |buffer| <= i < n ==> r[i] == 0
  {
    if n <= |buffer| then buffer[..n] else buffer + seq(n - |buffer|, _ => 0)
  }

  /** The uploaded bytes: the stream's buffer, whose first `length` bytes
      are the serialized block, resized to the padded length. The image is
      whole pages and starts with the serialized block. */
  function PageImage(buffer: seq<byte>, length: nat): (r: seq<byte>)
    requires length <= |buffer|
    ensures |r| == PaddedLength(length) && |r| % PageSize == 0
    ensures r[..length] == buffer[..length]
  {
    Resize(buffer, PaddedLength(length))
  }

  /** When the buffer is zero beyond the serialized bytes (as a memory
      stream's is), the image is the block followed by zero padding. */
  lemma PageImageOfZeroedBuffer(buffer: seq<byte>, length: nat)
    requires length <= |buffer|
    requires forall i :: length <= i < |buffer| ==> buffer[i] == 0
    ensures PageImage(buffer, length) == buffer[..length] + seq(PaddingLength(length), _ => 0)
  {
    var r := PageImage(buffer, length);
    var e := buffer[..length] + seq(PaddingLength(length), _ => 0);
    assert |r| == |e|;
    forall i | 0 <= i < |r| ensures r[i] == e[i] {
      if i < length {
        assert r[i] == r[..length][i];
      }
    }
  }
}
