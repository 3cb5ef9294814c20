/** Splitting an image into 4096-byte blocks with a zero-filled tail. */
module Partition {
  import opened Basics

  function Zeros(n: nat): (b: Bytes)
    ensures |b| == n
  {
    seq(n, _ => 0)
  }

  function BlockCount(image: Bytes): (n: nat) {
    DivCeil(|image|, DFIM_BLOCK_SIZE)
  }

  /** The bytes of block `i`, filled up with zeros. */
  function BlockAt(image: Bytes, i: nat): (b: Bytes)
    requires i < BlockCount(image)
    ensures |b| == DFIM_BLOCK_SIZE
  {
    var start := i * DFIM_BLOCK_SIZE;
    var end := Min(start + DFIM_BLOCK_SIZE, |image|);
    image[start..end] + Zeros(DFIM_BLOCK_SIZE - (end - start))
  }

  function Blocks(image: Bytes): (blocks: seq<Bytes>)
    ensures |blocks| == BlockCount(image)
  {
    seq(BlockCount(image), i requires 0 <= i < BlockCount(image) => BlockAt(image, i))
  }

  /** The image as the validator sees it: its length is known only up to the block size. */
  function ZeroPad(image: Bytes): (b: Bytes)
    ensures |b| == DFIM_BLOCK_SIZE * BlockCount(image)
  {
    image + Zeros(DFIM_BLOCK_SIZE * BlockCount(image) - |image|)
  }

  lemma ZeroPadByBlocks(image: Bytes, j: nat)
    requires j < |ZeroPad(image)|
    ensures ZeroPad(image)[j] == BlockAt(image, j / DFIM_BLOCK_SIZE)[j % DFIM_BLOCK_SIZE]
  {
    var i, k := j / DFIM_BLOCK_SIZE, j % DFIM_BLOCK_SIZE;
    assert j == i * DFIM_BLOCK_SIZE + k;
  }

  /** What the blocks hold: the image, byte for byte, then zeros up to the end of the last block, which
      is no longer than it has to be. */
  lemma BlocksHoldImage(image: Bytes, j: nat)
    requires j < 4096 * |Blocks(image)|
    ensures Blocks(image)[j / 4096][j % 4096] == if j < |image| then image[j] else 0
    ensures |image| <= 4096 * |Blocks(image)| < |image| + 4096
  {
    ZeroPadByBlocks(image, j);
  }

  /** Two images have the same blocks exactly when they are equal after zero padding. */
  lemma BlocksDetermineZeroPad(a: Bytes, b: Bytes)
    ensures Blocks(a) == Blocks(b) <==> ZeroPad(a) == ZeroPad(b)
  {
    if Blocks(a) == Blocks(b) {
      assert BlockCount(a) == BlockCount(b);
      forall j | 0 <= j < |ZeroPad(a)|
        ensures ZeroPad(a)[j] == ZeroPad(b)[j]
      {
        ZeroPadByBlocks(a, j);
        ZeroPadByBlocks(b, j);
        assert Blocks(a)[j / DFIM_BLOCK_SIZE] == Blocks(b)[j / DFIM_BLOCK_SIZE];
      }
    }
    if ZeroPad(a) == ZeroPad(b) {
      assert BlockCount(a) == BlockCount(b);
      forall i | 0 <= i < BlockCount(a)
        ensures BlockAt(a, i) == BlockAt(b, i)
      {
        BlockOfZeroPad(a, i);
        BlockOfZeroPad(b, i);
      }
    }
  }

  lemma BlockOfZeroPad(image: Bytes, i: nat)
    requires i < BlockCount(image)
    ensures BlockAt(image, i) == ZeroPad(image)[DFIM_BLOCK_SIZE * i..DFIM_BLOCK_SIZE * i + DFIM_BLOCK_SIZE]
  {
    forall k | 0 <= k < DFIM_BLOCK_SIZE
      ensures BlockAt(image, i)[k] == ZeroPad(image)[DFIM_BLOCK_SIZE * i + k]
    {
      var j := DFIM_BLOCK_SIZE * i + k;
      ZeroPadByBlocks(image, j);
      assert j / DFIM_BLOCK_SIZE == i && j % DFIM_BLOCK_SIZE == k;
    }
  }

  /** What `partition_blocks` and `partition_image_blocks` return. */
  function Partitioned(image: Bytes, blockSize: nat): (r: Result<seq<Bytes>>) {
    if ValidateImageByteLen(|image|).Err? then Err(ValidateImageByteLen(|image|).error)
    else if blockSize != DFIM_BLOCK_SIZE then Err(InvalidParameter)
    else Ok(Blocks(image))
  }

  method PartitionBlocks(image: Bytes, blockSize: nat) returns (r: Result<seq<Bytes>>)
    ensures r == Partitioned(image, blockSize)
    ensures |image| == 0 ==> r == Err(EmptyInput)
    ensures |image| > 262144 ==> r == Err(BufferTooLong)
    ensures 1 <= |image| <= 262144 ==> if blockSize == 4096 then r == Ok(Blocks(image)) else r == Err(InvalidParameter)
  {
    var _ :- ValidateImageByteLen(|image|);
    if blockSize != DFIM_BLOCK_SIZE {
      return Err(InvalidParameter);
    }
    var blockCount := DivCeil(|image|, blockSize);
    var _ :- ValidateBlockCount(blockCount);
    var blocks: seq<Bytes> := [];
    for idx := 0 to blockCount
      invariant blocks == Blocks(image)[..idx]
    {
      var start := idx * blockSize;
      var end := Min(start + blockSize, |image|);
      var block := Zeros(blockSize);
      block := image[start..end] + block[end - start..];
      assert block == BlockAt(image, idx);
      blocks := blocks + [block];
    }
    assert Blocks(image)[..blockCount] == Blocks(image);
    return Ok(blocks);
  }
}
