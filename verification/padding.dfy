/** The zero padding shared by every file of the repository:
    `__addPadding(data, block_size)` appends `block_size - len(data) % block_size`
    zero bytes, and `__removePadding(data)` is `data.rstrip(b"\x00")`. */
module Padding {

  import opened ByteSeq
  import Arith

  /** Appends between 1 and `blockSize` zero bytes, a full block when the
      input is already aligned. */
  function AddPadding(data: seq<byte>, blockSize: nat): (r: seq<byte>)
    requires blockSize >= 1
    ensures |r| % blockSize == 0
    ensures |data| < |r| <= |data| + blockSize
    ensures |data| % blockSize == 0 ==> |r| == |data| + blockSize
    ensures r[..|data|] == data
    ensures forall i | |data| <= i < |r| :: r[i] == 0
  {
    var count := blockSize - |data| % blockSize;
    assert (|data| + count) % blockSize == 0 by {
      var q := |data| / blockSize;
      Arith.MulSucc(blockSize, q);
      Arith.ModUnique(|data| + count, blockSize, q + 1, 0);
    }
    data + seq(count, _ => 0)
  }

  /** Input shorter than a block is padded to exactly one block. */
  lemma PadShort(data: seq<byte>, blockSize: nat)
    requires |data| < blockSize
    ensures |AddPadding(data, blockSize)| == blockSize
  {
    Arith.ModUnique(|data|, blockSize, 0, |data|);
  }

  /** Strips every trailing zero byte. */
  function RemovePadding(data: seq<byte>): (r: seq<byte>)
    ensures |r| <= |data| && r == data[..|r|]
    ensures |r| == 0 || r[|r| - 1] != 0
    ensures forall i | |r| <= i < |data| :: data[i] == 0
    decreases |data|
  {
    if |data| > 0 && data[|data| - 1] == 0 then RemovePadding(data[..|data| - 1]) else data
  }

  /** The three facts in RemovePadding's contract pin its result down: any
      prefix that ends in a non-zero byte and leaves only zeros behind is it. */
  lemma {:induction false} RemovePaddingUnique(data: seq<byte>, p: seq<byte>)
    requires |p| <= |data| && p == data[..|p|]
    requires |p| == 0 || p[|p| - 1] != 0
    requires forall i | |p| <= i < |data| :: data[i] == 0
    ensures RemovePadding(data) == p
  {
  }

  /** Stripping twice is stripping once. */
  lemma RemovePaddingIdempotent(data: seq<byte>)
    ensures RemovePadding(RemovePadding(data)) == RemovePadding(data)
  {
    var r := RemovePadding(data);
    RemovePaddingUnique(r, r);
  }

  /** Padding then stripping loses exactly the trailing zeros of the input. */
  lemma PadThenStrip(data: seq<byte>, blockSize: nat)
    requires blockSize >= 1
    ensures RemovePadding(AddPadding(data, blockSize)) == RemovePadding(data)
  {
    var padded := AddPadding(data, blockSize);
    var r := RemovePadding(data);
    assert padded[..|r|] == data[..|r|];
    RemovePaddingUnique(padded, r);
  }

  /** A message that does not end in a zero byte survives the padding round trip. */
  lemma PadThenStripRecovers(data: seq<byte>, blockSize: nat)
    requires blockSize >= 1
    requires |data| == 0 || data[|data| - 1] != 0
    ensures RemovePadding(AddPadding(data, blockSize)) == data
  {
    PadThenStrip(data, blockSize);
    RemovePaddingUnique(data, data);
  }
}
