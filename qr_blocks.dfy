/** The blocks of QRCodeBeautify: a block's data and error correction parts, their
  * interleaved order, and the block loop of encode, which reads each block's ideal
  * bytes from the ideal bits, chooses by importance which of them stay fixed, and
  * has the erasure-fill encoder fill in the rest. */
module QRBlocks {
  import opened Bits
  import opened GF256
  import opened GF256Tables
  import opened Outcomes
  import opened BitArrays
  import opened ErasureSystem
  import opened QRLayout
  import opened QRMapping
  import opened QRImportance
  import opened QRBlockEC
  import opened QRFieldEC
  import opened Interleaving

  /** A block's data bytes and error correction bytes. */
  datatype BlockPair = BlockPair(dataBytes: seq<Byte>, errorCorrectionBytes: seq<Byte>)

  function DataParts(blocks: seq<BlockPair>): (parts: seq<seq<Byte>>)
    ensures |parts| == |blocks|
  {
    seq(|blocks|, j requires 0 <= j < |blocks| => blocks[j].dataBytes)
  }

  function EcParts(blocks: seq<BlockPair>): (parts: seq<seq<Byte>>)
    ensures |parts| == |blocks|
  {
    seq(|blocks|, j requires 0 <= j < |blocks| => blocks[j].errorCorrectionBytes)
  }

  /** One more block adds its parts at the end. */
  lemma PartsSnoc(blocks: seq<BlockPair>, b: BlockPair)
    ensures DataParts(blocks + [b]) == DataParts(blocks) + [b.dataBytes]
    ensures EcParts(blocks + [b]) == EcParts(blocks) + [b.errorCorrectionBytes]
  {
    assert forall j :: 0 <= j < |blocks| ==> (blocks + [b])[j] == blocks[j];
  }

  /** The final codeword order: the data bytes column-major across the blocks, then the
    * error correction bytes column-major. */
  function Interleaved(blocks: seq<BlockPair>): seq<Byte>
  {
    ColumnMajor(DataParts(blocks), MaxLength(DataParts(blocks)))
    + ColumnMajor(EcParts(blocks), MaxLength(EcParts(blocks)))
  }

  /** Where byte i of block j sits before interleaving: a data byte at the block's data
    * offset, an error correction byte after all the data, ec bytes per block. */
  function PrePosition(numTotalBytes: nat, numDataBytes: nat, numRSBlocks: nat, j: nat, i: nat): nat
    requires 0 < numRSBlocks && numDataBytes <= numTotalBytes
  {
    var s1 := BlockDataBytes(numTotalBytes, numDataBytes, numRSBlocks, j);
    if i < s1 then SumDataBytes(numTotalBytes, numDataBytes, numRSBlocks, j) + i
    else numDataBytes + j * ECPerBlock(numTotalBytes, numDataBytes, numRSBlocks) + (i - s1)
  }

  /** Block j's ideal bytes: its data bytes, then its error correction bytes, read
    * from the ideal bits in pre-interleave order. */
  function IdealBlock(idealBits: seq<bool>, numTotalBytes: nat, numDataBytes: nat, numRSBlocks: nat, j: nat): (ideal: seq<Byte>)
    requires 0 < numRSBlocks && numDataBytes <= numTotalBytes
    ensures |ideal| == BlockDataBytes(numTotalBytes, numDataBytes, numRSBlocks, j)
                       + ECPerBlock(numTotalBytes, numDataBytes, numRSBlocks)
  {
    var ec := ECPerBlock(numTotalBytes, numDataBytes, numRSBlocks);
    ToBytes(idealBits, 8 * SumDataBytes(numTotalBytes, numDataBytes, numRSBlocks, j),
            BlockDataBytes(numTotalBytes, numDataBytes, numRSBlocks, j))
    + ToBytes(idealBits, 8 * (numDataBytes + j * ec), ec)
  }

  /** Every ideal byte of block j is the byte of the ideal bits at the block byte's
    * pre-interleave position. */
  lemma IdealBlockBits(idealBits: seq<bool>, numTotalBytes: nat, numDataBytes: nat, numRSBlocks: nat, j: nat, i: nat, k: nat)
    requires 0 < numRSBlocks && numDataBytes <= numTotalBytes
    requires i < |IdealBlock(idealBits, numTotalBytes, numDataBytes, numRSBlocks, j)| && k < 8
    ensures ToBits(IdealBlock(idealBits, numTotalBytes, numDataBytes, numRSBlocks, j)[i], 8)[k]
            == BitAt(idealBits, 8 * PrePosition(numTotalBytes, numDataBytes, numRSBlocks, j, i) + k)
  {
    var ec := ECPerBlock(numTotalBytes, numDataBytes, numRSBlocks);
    var s1 := BlockDataBytes(numTotalBytes, numDataBytes, numRSBlocks, j);
    var data := ToBytes(idealBits, 8 * SumDataBytes(numTotalBytes, numDataBytes, numRSBlocks, j), s1);
    var rest := ToBytes(idealBits, 8 * (numDataBytes + j * ec), ec);
    if i < s1 {
      assert (data + rest)[i] == data[i];
    } else {
      assert (data + rest)[i] == rest[i - s1];
    }
  }

  /** Block j's importance flags, from the importance of its bytes. */
  function BlockFlags(iv: seq<int>, numTotalBytes: nat, numDataBytes: nat, numRSBlocks: nat, j: nat): seq<bool>
    requires 0 < numRSBlocks && numDataBytes <= numTotalBytes && j < numRSBlocks && |iv| == numTotalBytes
    requires numDataBytes % numRSBlocks == numTotalBytes % numRSBlocks
  {
    var ec := ECPerBlock(numTotalBytes, numDataBytes, numRSBlocks);
    var s1 := BlockDataBytes(numTotalBytes, numDataBytes, numRSBlocks, j);
    var dataOffset := SumDataBytes(numTotalBytes, numDataBytes, numRSBlocks, j);
    var ecOffset: nat := numDataBytes + j * ec;
    BlockInRange(numTotalBytes, numDataBytes, numRSBlocks, j);
    ImportanceFlags(BlockKeys(iv, dataOffset, s1, ecOffset, ec), s1)
  }

  /** Block j as the beautifier builds it: its bytes are the ideal ones with the free
    * bytes filled in by the erasure-fill encoder. */
  ghost predicate BeautifiedBlock(idealBits: seq<bool>, iv: seq<int>, numTotalBytes: nat, numDataBytes: nat, numRSBlocks: nat,
                                  j: nat, block: seq<Byte>)
    requires 0 < numRSBlocks && numDataBytes <= numTotalBytes && j < numRSBlocks && |iv| == numTotalBytes
    requires numDataBytes % numRSBlocks == numTotalBytes % numRSBlocks
  {
    Filled(IdealBlock(idealBits, numTotalBytes, numDataBytes, numRSBlocks, j),
           BlockFlags(iv, numTotalBytes, numDataBytes, numRSBlocks, j),
           BlockDataBytes(numTotalBytes, numDataBytes, numRSBlocks, j),
           block)
  }

  /** A beautified block has the block's size and keeps every fixed byte's ideal bits,
    * each of which is the ideal bit at the byte's pre-interleave position. */
  lemma BeautifiedKeepsFixed(idealBits: seq<bool>, iv: seq<int>, numTotalBytes: nat, numDataBytes: nat, numRSBlocks: nat,
                             j: nat, block: seq<Byte>, i: nat, k: nat)
    requires 0 < numRSBlocks && numDataBytes <= numTotalBytes && j < numRSBlocks && |iv| == numTotalBytes
    requires numDataBytes % numRSBlocks == numTotalBytes % numRSBlocks
    requires BeautifiedBlock(idealBits, iv, numTotalBytes, numDataBytes, numRSBlocks, j, block)
    requires i < |block| && k < 8
    ensures |block| == BlockDataBytes(numTotalBytes, numDataBytes, numRSBlocks, j)
                       + ECPerBlock(numTotalBytes, numDataBytes, numRSBlocks)
    ensures BlockFlags(iv, numTotalBytes, numDataBytes, numRSBlocks, j)[i] ==>
              ToBits(block[i], 8)[k] == BitAt(idealBits, 8 * PrePosition(numTotalBytes, numDataBytes, numRSBlocks, j, i) + k)
  {
    QrCodeFieldValid();
    IdealBlockBits(idealBits, numTotalBytes, numDataBytes, numRSBlocks, j, i, k);
  }

  /** Every bit of a flagged byte of the block is the ideal bit at the byte's
    * pre-interleave position. */
  ghost predicate KeepsIdeal(idealBits: seq<bool>, flags: seq<bool>, numTotalBytes: nat, numDataBytes: nat, numRSBlocks: nat,
                             j: nat, block: seq<Byte>)
    requires 0 < numRSBlocks && numDataBytes <= numTotalBytes
  {
    && |flags| == |block|
    && forall i, k :: 0 <= i < |block| && 0 <= k < 8 && flags[i] ==>
         ToBits(block[i], 8)[k] == BitAt(idealBits, 8 * PrePosition(numTotalBytes, numDataBytes, numRSBlocks, j, i) + k)
  }

  /** A beautified block keeps the ideal bits of all its fixed bytes. */
  lemma BeautifiedKeepsIdeal(idealBits: seq<bool>, iv: seq<int>, numTotalBytes: nat, numDataBytes: nat, numRSBlocks: nat,
                             j: nat, block: seq<Byte>)
    requires 0 < numRSBlocks && numDataBytes <= numTotalBytes && j < numRSBlocks && |iv| == numTotalBytes
    requires numDataBytes % numRSBlocks == numTotalBytes % numRSBlocks
    requires BeautifiedBlock(idealBits, iv, numTotalBytes, numDataBytes, numRSBlocks, j, block)
    ensures KeepsIdeal(idealBits, BlockFlags(iv, numTotalBytes, numDataBytes, numRSBlocks, j),
                       numTotalBytes, numDataBytes, numRSBlocks, j, block)
  {
    forall i, k | 0 <= i < |block| && 0 <= k < 8 && BlockFlags(iv, numTotalBytes, numDataBytes, numRSBlocks, j)[i]
      ensures ToBits(block[i], 8)[k] == BitAt(idealBits, 8 * PrePosition(numTotalBytes, numDataBytes, numRSBlocks, j, i) + k)
    {
      BeautifiedKeepsFixed(idealBits, iv, numTotalBytes, numDataBytes, numRSBlocks, j, block, i, k);
    }
    if |block| > 0 {
      BeautifiedKeepsFixed(idealBits, iv, numTotalBytes, numDataBytes, numRSBlocks, j, block, 0, 0);
    }
  }

  /** One pass of the block loop of encode: block i's ideal bytes read at the running
    * offsets, its importance flags chosen, its free bytes filled in; the encoders'
    * refusals propagate. */
  method MakeBeautifiedBlock(idealBits: seq<bool>, iv: seq<int>, numTotalBytes: nat, numDataBytes: nat, numRSBlocks: nat,
                             i: nat, dataBytesOffset: nat, ecByteOffset: nat)
    returns (result: Result<seq<Byte>>)
    requires 0 < numRSBlocks && numDataBytes <= numTotalBytes && i < numRSBlocks && |iv| == numTotalBytes
    requires numDataBytes % numRSBlocks == numTotalBytes % numRSBlocks
    requires ECPerBlock(numTotalBytes, numDataBytes, numRSBlocks) <= 256
    requires dataBytesOffset == SumDataBytes(numTotalBytes, numDataBytes, numRSBlocks, i)
    requires ecByteOffset == numDataBytes + i * ECPerBlock(numTotalBytes, numDataBytes, numRSBlocks)
    ensures result.Success? <==> ECPerBlock(numTotalBytes, numDataBytes, numRSBlocks) > 0
                                 && BlockDataBytes(numTotalBytes, numDataBytes, numRSBlocks, i) > 0
    ensures ECPerBlock(numTotalBytes, numDataBytes, numRSBlocks) == 0 ==>
              result == Failure(IndexOutOfBounds(""))
    ensures ECPerBlock(numTotalBytes, numDataBytes, numRSBlocks) > 0
            && BlockDataBytes(numTotalBytes, numDataBytes, numRSBlocks, i) == 0 ==>
              result == Failure(IllegalArgument("No data bytes provided"))
    ensures result.Success? ==> BeautifiedBlock(idealBits, iv, numTotalBytes, numDataBytes, numRSBlocks, i, result.value)
  {
    var sizes := GetNumDataBytesAndNumECBytesForBlockID(numTotalBytes, numDataBytes, numRSBlocks, i);
    BlockSplit(numTotalBytes, numDataBytes, numRSBlocks, i);
    var s1, s2 := sizes.value.numDataBytes, sizes.value.numECBytes;
    BlockInRange(numTotalBytes, numDataBytes, numRSBlocks, i);
    ghost var ideal := IdealBlock(idealBits, numTotalBytes, numDataBytes, numRSBlocks, i);
    var dataBytes := ToBytes(idealBits, 8 * dataBytesOffset, s1) + ToBytes(idealBits, 8 * ecByteOffset, s2);
    assert dataBytes == ideal;
    var flag := GetImportanceFlagNew(dataBytesOffset, s1, ecByteOffset, s2, iv);
    assert flag[..] == BlockFlags(iv, numTotalBytes, numDataBytes, numRSBlocks, i);
    ImportanceFlagsCount(BlockKeys(iv, dataBytesOffset, s1, ecByteOffset, s2), s1);
    result := EncodeBlock(dataBytes, flag, s1);
  }

  /** Block j of the beautifier cut into its data and error correction parts. */
  ghost predicate BeautifiedPair(idealBits: seq<bool>, iv: seq<int>, numTotalBytes: nat, numDataBytes: nat, numRSBlocks: nat,
                                 j: nat, block: BlockPair)
    requires 0 < numRSBlocks && numDataBytes <= numTotalBytes && j < numRSBlocks && |iv| == numTotalBytes
    requires numDataBytes % numRSBlocks == numTotalBytes % numRSBlocks
  {
    && |block.dataBytes| == BlockDataBytes(numTotalBytes, numDataBytes, numRSBlocks, j)
    && |block.errorCorrectionBytes| == ECPerBlock(numTotalBytes, numDataBytes, numRSBlocks)
    && BeautifiedBlock(idealBits, iv, numTotalBytes, numDataBytes, numRSBlocks, j,
                       block.dataBytes + block.errorCorrectionBytes)
  }

  /** The blocks are the first |blocks| blocks of the beautifier. */
  ghost predicate AllBeautified(idealBits: seq<bool>, iv: seq<int>, numTotalBytes: nat, numDataBytes: nat, numRSBlocks: nat,
                                blocks: seq<BlockPair>)
    requires 0 < numRSBlocks && numDataBytes <= numTotalBytes && |iv| == numTotalBytes
    requires numDataBytes % numRSBlocks == numTotalBytes % numRSBlocks
  {
    && |blocks| <= numRSBlocks
    && forall j {:trigger BeautifiedPair(idealBits, iv, numTotalBytes, numDataBytes, numRSBlocks, j, blocks[j])} ::
         0 <= j < |blocks| ==> BeautifiedPair(idealBits, iv, numTotalBytes, numDataBytes, numRSBlocks, j, blocks[j])
  }

  lemma AllBeautifiedSnoc(idealBits: seq<bool>, iv: seq<int>, numTotalBytes: nat, numDataBytes: nat, numRSBlocks: nat,
                          blocks: seq<BlockPair>, b: BlockPair)
    requires 0 < numRSBlocks && numDataBytes <= numTotalBytes && |iv| == numTotalBytes
    requires numDataBytes % numRSBlocks == numTotalBytes % numRSBlocks
    requires |blocks| < numRSBlocks
    requires AllBeautified(idealBits, iv, numTotalBytes, numDataBytes, numRSBlocks, blocks)
    requires BeautifiedPair(idealBits, iv, numTotalBytes, numDataBytes, numRSBlocks, |blocks|, b)
    ensures AllBeautified(idealBits, iv, numTotalBytes, numDataBytes, numRSBlocks, blocks + [b])
  {
    forall j | 0 <= j < |blocks| + 1
      ensures BeautifiedPair(idealBits, iv, numTotalBytes, numDataBytes, numRSBlocks, j, (blocks + [b])[j])
    {
      if j < |blocks| {
        assert (blocks + [b])[j] == blocks[j];
      } else {
        assert (blocks + [b])[j] == b;
      }
    }
  }

  /** One pass of the block loop, the filled block cut at its data length and added
    * to the blocks built so far (a ghost argument: the loop's list of blocks). */
  method MakeBeautifiedPair(idealBits: seq<bool>, iv: seq<int>, numTotalBytes: nat, numDataBytes: nat, numRSBlocks: nat,
                            i: nat, dataBytesOffset: nat, ecByteOffset: nat, ghost blocks: seq<BlockPair>)
    returns (result: Result<BlockPair>)
    requires 0 < numRSBlocks && numDataBytes <= numTotalBytes && i < numRSBlocks && |iv| == numTotalBytes
    requires numDataBytes % numRSBlocks == numTotalBytes % numRSBlocks
    requires ECPerBlock(numTotalBytes, numDataBytes, numRSBlocks) <= 256
    requires dataBytesOffset == SumDataBytes(numTotalBytes, numDataBytes, numRSBlocks, i)
    requires ecByteOffset == numDataBytes + i * ECPerBlock(numTotalBytes, numDataBytes, numRSBlocks)
    ensures result.Success? <==> ECPerBlock(numTotalBytes, numDataBytes, numRSBlocks) > 0
                                 && BlockDataBytes(numTotalBytes, numDataBytes, numRSBlocks, i) > 0
    ensures ECPerBlock(numTotalBytes, numDataBytes, numRSBlocks) == 0 ==>
              result == Failure(IndexOutOfBounds(""))
    ensures ECPerBlock(numTotalBytes, numDataBytes, numRSBlocks) > 0
            && BlockDataBytes(numTotalBytes, numDataBytes, numRSBlocks, i) == 0 ==>
              result == Failure(IllegalArgument("No data bytes provided"))
    requires |blocks| == i && AllBeautified(idealBits, iv, numTotalBytes, numDataBytes, numRSBlocks, blocks)
    ensures result.Success? ==>
              && |result.value.dataBytes| == BlockDataBytes(numTotalBytes, numDataBytes, numRSBlocks, i)
              && |result.value.errorCorrectionBytes| == ECPerBlock(numTotalBytes, numDataBytes, numRSBlocks)
              && AllBeautified(idealBits, iv, numTotalBytes, numDataBytes, numRSBlocks, blocks + [result.value])
  {
    var filled := MakeBeautifiedBlock(idealBits, iv, numTotalBytes, numDataBytes, numRSBlocks, i, dataBytesOffset, ecByteOffset);
    if filled.Failure? {
      return Failure(filled.error);
    }
    var block := filled.value;
    var s1 := BlockDataBytes(numTotalBytes, numDataBytes, numRSBlocks, i);
    BeautifiedKeepsFixed(idealBits, iv, numTotalBytes, numDataBytes, numRSBlocks, i, block, 0, 0);
    assert block[..s1] + block[s1..] == block;
    AllBeautifiedSnoc(idealBits, iv, numTotalBytes, numDataBytes, numRSBlocks, blocks, BlockPair(block[..s1], block[s1..]));
    return Success(BlockPair(block[..s1], block[s1..]));
  }

  /** The block loop of encode: every block built in turn from the ideal bits and the
    * byte importance, with the longest data and error correction parts. */
  method AssembleBlocks(idealBits: seq<bool>, iv: seq<int>, numTotalBytes: nat, numDataBytes: nat, numRSBlocks: nat)
    returns (result: Result<seq<BlockPair>>, maxNumDataBytes: nat, maxNumEcBytes: nat, dataBytesOffset: nat)
    requires 0 < numRSBlocks && numDataBytes <= numTotalBytes && |iv| == numTotalBytes
    requires numDataBytes % numRSBlocks == numTotalBytes % numRSBlocks
    requires ECPerBlock(numTotalBytes, numDataBytes, numRSBlocks) <= 256
    ensures result.Success? <==> ECPerBlock(numTotalBytes, numDataBytes, numRSBlocks) > 0 && numDataBytes >= numRSBlocks
    ensures ECPerBlock(numTotalBytes, numDataBytes, numRSBlocks) == 0 ==>
              result == Failure(IndexOutOfBounds(""))
    ensures ECPerBlock(numTotalBytes, numDataBytes, numRSBlocks) > 0 && numDataBytes < numRSBlocks ==>
              result == Failure(IllegalArgument("No data bytes provided"))
    ensures result.Success? ==>
              && |result.value| == numRSBlocks
              && AllBeautified(idealBits, iv, numTotalBytes, numDataBytes, numRSBlocks, result.value)
              && maxNumDataBytes == MaxLength(DataParts(result.value))
              && maxNumEcBytes == MaxLength(EcParts(result.value))
              && dataBytesOffset == numDataBytes
  {
    var T, D, B := numTotalBytes, numDataBytes, numRSBlocks;
    FirstBlockSize(T, D, B);
    dataBytesOffset, maxNumDataBytes, maxNumEcBytes := 0, 0, 0;
    var ecByteOffset: nat := D;
    var blocks: seq<BlockPair> := [];
    for i := 0 to numRSBlocks
      invariant |blocks| == i
      invariant AllBeautified(idealBits, iv, T, D, B, blocks)
      invariant dataBytesOffset == SumDataBytes(T, D, B, i)
      invariant ecByteOffset == D + i * ECPerBlock(T, D, B)
      invariant maxNumDataBytes == MaxLength(DataParts(blocks)) && maxNumEcBytes == MaxLength(EcParts(blocks))
      invariant i > 0 ==> ECPerBlock(T, D, B) > 0 && D >= B
    {
      BlockDataBytesAtLeast(T, D, B, i);
      var block := MakeBeautifiedPair(idealBits, iv, T, D, B, i, dataBytesOffset, ecByteOffset, blocks);
      if block.Failure? {
        return Failure(block.error), maxNumDataBytes, maxNumEcBytes, dataBytesOffset;
      }
      var b := block.value;
      PartsSnoc(blocks, b);
      MaxLengthSnoc(DataParts(blocks), b.dataBytes);
      MaxLengthSnoc(EcParts(blocks), b.errorCorrectionBytes);
      QRMapping.MulStep(i, ECPerBlock(T, D, B));
      blocks := blocks + [b];
      maxNumDataBytes := if maxNumDataBytes < |b.dataBytes| then |b.dataBytes| else maxNumDataBytes;
      maxNumEcBytes := if maxNumEcBytes < |b.errorCorrectionBytes| then |b.errorCorrectionBytes| else maxNumEcBytes;
      dataBytesOffset := dataBytesOffset + |b.dataBytes|;
      ecByteOffset := ecByteOffset + |b.errorCorrectionBytes|;
    }
    DataSum(T, D, B);
    return Success(blocks), maxNumDataBytes, maxNumEcBytes, dataBytesOffset;
  }

}
